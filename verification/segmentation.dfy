/** src/segmentation.cpp: splitting the profile payload into APP2
    "ICC_PROFILE" segments (the JPEG embedding of Annex B.4 of the ICC.1
    specification, with a 2-byte sequence number), the single-segment size
    patch, the Reddit padding, and the platform-limit filter. */
module Segmentation {
  import opened Wrappers
  import opened Bytes
  import opened BinaryIo

  const SegmentDataSize: nat := 65519
  const SegmentHeaderLength: nat := 16
  /** Marker (2) + header (16) bytes in front of every segment's data. */
  const SegmentPrefix: nat := 18
  /** Bytes one full segment occupies: prefix plus data. */
  const SegmentStride: nat := 65537
  const SegmentsTotalIndex: nat := 0x2E0
  /** The largest profile still stored as one segment. */
  const MaxFirstSegmentSize: nat := 65539
  const ProfileDataSize: nat := 851
  const DeflatedSizeIndex: nat := 0x2E2
  const MergeThreshold: nat := 20 * 1024 * 1024

  /** "ICC_PROFILE" */
  const IccProfileName: seq<byte> := [0x49, 0x43, 0x43, 0x5F, 0x50, 0x52, 0x4F, 0x46, 0x49, 0x4C, 0x45]

  /** The 18-byte segment header: APP2 marker, 16-bit length, the profile
      name, the 16-bit sequence number and a constant 0x01. Both numbers
      are truncated to 16 bits, as the source's `uint16_t` and byte casts
      do. */
  function IccHeader(length: nat, seqNo: nat): (h: seq<byte>)
    ensures |h| == SegmentPrefix
  {
    [0xFF, 0xE2] + ToBE(length, 2) + IccProfileName + ToBE(seqNo, 2) + [0x01]
  }

  lemma IccHeaderFields(length: nat, seqNo: nat)
    ensures var h := IccHeader(length, seqNo);
      h[..2] == [0xFF, 0xE2] && h[4..15] == IccProfileName && h[17] == 0x01 &&
      BE(h[2..4]) == length % 0x1_0000 && BE(h[15..17]) == seqNo % 0x1_0000
  {
    BEToBE(length, 2);
    BEToBE(seqNo, 2);
    var h := IccHeader(length, seqNo);
    assert h[2..4] == ToBE(length, 2) && h[15..17] == ToBE(seqNo, 2);
  }

  /** Payload bytes beyond one full segment's worth, less the 4 bytes of
      SOI and APP2 marker that are dropped; 0 when at most 4 remain. */
  function RemainderSize(size: nat): nat
    requires size >= SegmentHeaderLength
  {
    var r := (size - SegmentHeaderLength) % SegmentDataSize;
    if r > 4 then r - 4 else 0
  }

  /** segments_required of buildMultiSegmentICC. */
  function SegmentsRequired(size: nat): (n: nat)
    requires size >= SegmentHeaderLength
  {
    (size - SegmentHeaderLength) / SegmentDataSize + (if RemainderSize(size) > 0 then 1 else 0)
  }

  /** Every header of a segment list is SegmentPrefix bytes long. */
  predicate HeadersSized(hs: seq<seq<byte>>)
  {
    forall i :: 0 <= i < |hs| ==> |hs[i]| == SegmentPrefix
  }

  /** The headers of segments 1..count: all but the last carry the length
      field 65535, the last one `lastLength`. */
  function SegmentHeaders(count: nat, lastLength: nat): (hs: seq<seq<byte>>)
    ensures |hs| == count && HeadersSized(hs)
  {
    var hs := seq(count, j requires 0 <= j < count => SegmentHeader(count, lastLength, j));
    assert forall j :: 0 <= j < count ==> |hs[j]| == SegmentPrefix by {
      forall j | 0 <= j < count
        ensures |hs[j]| == SegmentPrefix
      {
        assert hs[j] == SegmentHeader(count, lastLength, j);
      }
    }
    hs
  }

  /** The header of segment j + 1 of count. */
  function SegmentHeader(count: nat, lastLength: nat, j: nat): (h: seq<byte>)
    ensures |h| == SegmentPrefix
  {
    IccHeader(if j + 1 < count then SegmentDataSize + SegmentHeaderLength else lastLength, j + 1)
  }

  /** The segments laid out one after the other: each header followed by
      SegmentDataSize bytes of `data`, the last one by the rest. */
  function EmitSegments(hs: seq<seq<byte>>, data: seq<byte>): (r: seq<byte>)
    requires |hs| >= 1 && HeadersSized(hs)
    requires |data| >= (|hs| - 1) * SegmentDataSize
    ensures |r| == |data| + |hs| * SegmentPrefix
  {
    if |hs| == 1 then hs[0] + data
    else hs[0] + data[..SegmentDataSize] + EmitSegments(hs[1..], data[SegmentDataSize..])
  }

  /** Partner of EmitSegments: the data parts of `k` consecutive segments
      with their 18-byte headers dropped. */
  function CollectData(s: seq<byte>, k: nat): seq<byte>
    requires k >= 1 && |s| >= (k - 1) * SegmentStride + SegmentPrefix
    decreases k
  {
    if k == 1 then s[SegmentPrefix..]
    else s[SegmentPrefix..SegmentStride] + CollectData(s[SegmentStride..], k - 1)
  }

  lemma ThreeParts(a: seq<byte>, b: seq<byte>, c: seq<byte>)
    ensures (a + b + c)[..|a|] == a
    ensures (a + b + c)[|a|..|a| + |b|] == b
    ensures (a + b + c)[|a| + |b|..] == c
  {
  }

  lemma {:induction false} CollectEmitted(hs: seq<seq<byte>>, data: seq<byte>)
    requires |hs| >= 1 && HeadersSized(hs)
    requires |data| >= (|hs| - 1) * SegmentDataSize
    ensures CollectData(EmitSegments(hs, data), |hs|) == data
  {
    var r := EmitSegments(hs, data);
    if |hs| == 1 {
      assert r == hs[0] + data;
      assert r[SegmentPrefix..] == data;
    } else {
      var rest := EmitSegments(hs[1..], data[SegmentDataSize..]);
      assert r == hs[0] + data[..SegmentDataSize] + rest;
      ThreeParts(hs[0], data[..SegmentDataSize], rest);
      CollectEmitted(hs[1..], data[SegmentDataSize..]);
      var head, tail := r[SegmentPrefix..SegmentStride], CollectData(rest, |hs| - 1);
      assert CollectData(r, |hs|) == head + tail;
      assert head == data[..SegmentDataSize];
      assert data[..SegmentDataSize] + data[SegmentDataSize..] == data;
    }
  }

  /** Header i (0-based) sits i strides in. */
  lemma {:induction false} HeaderAt(hs: seq<seq<byte>>, data: seq<byte>, i: nat)
    requires |hs| >= 1 && HeadersSized(hs) && i < |hs|
    requires |data| >= (|hs| - 1) * SegmentDataSize
    ensures var r := EmitSegments(hs, data);
      i * SegmentStride + SegmentPrefix <= |r| &&
      r[i * SegmentStride..i * SegmentStride + SegmentPrefix] == hs[i]
  {
    var r := EmitSegments(hs, data);
    if |hs| == 1 {
      assert r == hs[0] + data;
      assert r[..SegmentPrefix] == hs[0];
    } else {
      var rest := EmitSegments(hs[1..], data[SegmentDataSize..]);
      assert r == hs[0] + data[..SegmentDataSize] + rest;
      ThreeParts(hs[0], data[..SegmentDataSize], rest);
      if i > 0 {
        HeaderAt(hs[1..], data[SegmentDataSize..], i - 1);
        var at := i * SegmentStride;
        assert at == SegmentStride + (i - 1) * SegmentStride;
        assert r[SegmentStride..] == rest;
        assert r[at..at + SegmentPrefix] == rest[at - SegmentStride..at - SegmentStride + SegmentPrefix];
      }
    }
  }

  /** The last segment's length field as the source writes it. */
  function LastLengthAsWritten(size: nat): nat
    requires size >= SegmentHeaderLength
  {
    (RemainderSize(size) + SegmentHeaderLength) % 0x1_0000
  }

  /** Data bytes that actually go into the last segment. */
  function LastDataSize(size: nat): int
    requires size >= SegmentHeaderLength
  {
    (size - 20) - (SegmentsRequired(size) - 1) * SegmentDataSize
  }

  /** The last segment's length field as the JPEG format requires it: the
      16 header bytes after the marker plus the data it carries. */
  function LastLength(size: nat): nat
    requires size > MaxFirstSegmentSize
  {
    LastDataSizeFits(size);
    LastDataSize(size) + SegmentHeaderLength
  }

  /** With more than one segment's worth of payload the count is at least
      1, the non-last segments fit, and the last one carries between 1 and
      65519 bytes. */
  lemma LastDataSizeFits(size: nat)
    requires size > MaxFirstSegmentSize
    ensures SegmentsRequired(size) >= 1
    ensures 1 <= LastDataSize(size) <= SegmentDataSize
    ensures RemainderSize(size) > 0 ==> LastDataSize(size) == RemainderSize(size)
  {
    var a := size - SegmentHeaderLength;
    var q := a / SegmentDataSize;
    var r := a % SegmentDataSize;
    assert a == q * SegmentDataSize + r;
    assert q >= 1;
  }

  /** buildMultiSegmentICC as written: the count goes to 0x2E0, the first 20
      bytes (SOI, APP2 marker, ICC header) are dropped, the rest is split
      into segments and the saved SOI is put back in front. */
  function BuildMultiSegmentIccAsWritten(segment: seq<byte>, soi: seq<byte>): (r: seq<byte>)
    requires |segment| > MaxFirstSegmentSize && |soi| >= 2
  {
    LastDataSizeFits(|segment|);
    var count := SegmentsRequired(|segment|);
    var data := WriteBE(segment, SegmentsTotalIndex, count, 2)[20..];
    soi[..2] + EmitSegments(SegmentHeaders(count, LastLengthAsWritten(|segment|)), data)
  }

  /** buildMultiSegmentICC with the last segment's length field corrected
      to cover the data the segment carries. */
  function BuildMultiSegmentIcc(segment: seq<byte>, soi: seq<byte>): (r: seq<byte>)
    requires |segment| > MaxFirstSegmentSize && |soi| >= 2
    ensures |r| == 2 + (|segment| - 20) + SegmentsRequired(|segment|) * SegmentPrefix
    ensures r[..2] == soi[..2]
  {
    LastDataSizeFits(|segment|);
    var count := SegmentsRequired(|segment|);
    var data := WriteBE(segment, SegmentsTotalIndex, count, 2)[20..];
    soi[..2] + EmitSegments(SegmentHeaders(count, LastLength(|segment|)), data)
  }

  /** Every segment of the output carries a length field equal to 16 plus
      its data size, the sequence number i, and the profile name. */
  lemma MultiSegmentHeaders(segment: seq<byte>, soi: seq<byte>, i: nat)
    requires |segment| > MaxFirstSegmentSize && |soi| >= 2
    requires 1 <= i <= SegmentsRequired(|segment|)
    ensures var r := BuildMultiSegmentIcc(segment, soi);
      var at := 2 + (i - 1) * SegmentStride;
      at + SegmentPrefix <= |r| &&
      r[at..at + SegmentPrefix] == SegmentHeaders(SegmentsRequired(|segment|), LastLength(|segment|))[i - 1]
  {
    LastDataSizeFits(|segment|);
    var count := SegmentsRequired(|segment|);
    var data := WriteBE(segment, SegmentsTotalIndex, count, 2)[20..];
    var hs := SegmentHeaders(count, LastLength(|segment|));
    MultiSegmentLayout(segment, soi, hs, data);
    HeaderInOutput(BuildMultiSegmentIcc(segment, soi), soi[..2], hs, data, i - 1, hs[i - 1]);
  }

  /** Header k of the segments sits 2 + k strides into SOI + segments. */
  lemma HeaderInOutput(r: seq<byte>, p: seq<byte>, hs: seq<seq<byte>>, data: seq<byte>, k: nat, h: seq<byte>)
    requires |p| == 2 && |hs| >= 1 && HeadersSized(hs) && k < |hs|
    requires |data| >= (|hs| - 1) * SegmentDataSize
    requires r == p + EmitSegments(hs, data) && hs[k] == h
    ensures 2 + k * SegmentStride + SegmentPrefix <= |r|
    ensures r[2 + k * SegmentStride..2 + k * SegmentStride + SegmentPrefix] == h
  {
    PrefixedHeaderAt(p, hs, data, k);
  }

  /** BuildMultiSegmentIcc spelled out as SOI, then the segments. */
  lemma MultiSegmentLayout(segment: seq<byte>, soi: seq<byte>, hs: seq<seq<byte>>, data: seq<byte>)
    requires |segment| > MaxFirstSegmentSize && |soi| >= 2
    requires hs == SegmentHeaders(SegmentsRequired(|segment|), LastLength(|segment|))
    requires data == WriteBE(segment, SegmentsTotalIndex, SegmentsRequired(|segment|), 2)[20..]
    requires |hs| >= 1 && |data| >= (|hs| - 1) * SegmentDataSize
    ensures BuildMultiSegmentIcc(segment, soi) == soi[..2] + EmitSegments(hs, data)
  {
  }

  /** The i-th header carries the length field 16 + the segment's data
      size and the sequence number i. */
  lemma HeaderOfSegment(size: nat, i: nat)
    requires size > MaxFirstSegmentSize
    requires 1 <= i <= SegmentsRequired(size)
    ensures var dataSize := if i < SegmentsRequired(size) then SegmentDataSize else LastDataSize(size);
      SegmentHeaders(SegmentsRequired(size), LastLength(size))[i - 1] == IccHeader(dataSize + SegmentHeaderLength, i)
  {
    var count := SegmentsRequired(size);
    var last := LastLength(size);
    var dataSize := if i < count then SegmentDataSize else LastDataSize(size);
    assert dataSize + SegmentHeaderLength == (if i < count then SegmentDataSize + SegmentHeaderLength else last);
    assert SegmentHeaders(count, last)[i - 1] == SegmentHeader(count, last, i - 1);
  }

  /** HeaderAt behind a 2-byte prefix. */
  lemma PrefixedHeaderAt(p: seq<byte>, hs: seq<seq<byte>>, data: seq<byte>, k: nat)
    requires |p| == 2 && |hs| >= 1 && HeadersSized(hs) && k < |hs|
    requires |data| >= (|hs| - 1) * SegmentDataSize
    ensures var r := p + EmitSegments(hs, data);
      var at := 2 + k * SegmentStride;
      at + SegmentPrefix <= |r| && r[at..at + SegmentPrefix] == hs[k]
  {
    var e := EmitSegments(hs, data);
    HeaderAt(hs, data, k);
    var at := k * SegmentStride;
    assert (p + e)[2 + at..2 + at + SegmentPrefix] == e[at..at + SegmentPrefix];
  }

  /** Dropping the segment headers gives back the payload after its first
      20 bytes, with the segment count readable at 0x2CC of it. */
  lemma MultiSegmentData(segment: seq<byte>, soi: seq<byte>)
    requires |segment| > MaxFirstSegmentSize && |soi| >= 2
    ensures var r := BuildMultiSegmentIcc(segment, soi);
      var count := SegmentsRequired(|segment|);
      |r| >= 2 + (count - 1) * SegmentStride + SegmentPrefix &&
      CollectData(r[2..], count) == WriteBE(segment, SegmentsTotalIndex, count, 2)[20..]
    ensures var count := SegmentsRequired(|segment|);
      var data := WriteBE(segment, SegmentsTotalIndex, count, 2)[20..];
      BE(data[SegmentsTotalIndex - 20..SegmentsTotalIndex - 18]) == count % 0x1_0000
    ensures forall j :: 20 <= j < |segment| && !(SegmentsTotalIndex <= j < SegmentsTotalIndex + 2) ==>
      WriteBE(segment, SegmentsTotalIndex, SegmentsRequired(|segment|), 2)[20..][j - 20] == segment[j]
  {
    LastDataSizeFits(|segment|);
    var count := SegmentsRequired(|segment|);
    var w := WriteBE(segment, SegmentsTotalIndex, count, 2);
    var data := w[20..];
    var r := BuildMultiSegmentIcc(segment, soi);
    var hs := SegmentHeaders(count, LastLength(|segment|));
    assert r[2..] == EmitSegments(hs, data);
    CollectEmitted(hs, data);
    assert data[SegmentsTotalIndex - 20..SegmentsTotalIndex - 18] == w[SegmentsTotalIndex..SegmentsTotalIndex + 2];
  }

  /** The corrected and the as-written builders agree except when the
      payload leaves at most 4 bytes past whole segments. */
  lemma AsWrittenAgreesUnlessShortRemainder(segment: seq<byte>, soi: seq<byte>)
    requires |segment| > MaxFirstSegmentSize && |soi| >= 2
    requires RemainderSize(|segment|) > 0
    ensures BuildMultiSegmentIccAsWritten(segment, soi) == BuildMultiSegmentIcc(segment, soi)
  {
    LastDataSizeFits(|segment|);
    assert LastLengthAsWritten(|segment|) == LastLength(|segment|);
  }

  /** The defect: a 131054-byte profile gives two segments, and the second
      carries 65515 data bytes while its length field says 16. */
  lemma AsWrittenLastLengthWrong()
    ensures SegmentsRequired(131054) == 2
    ensures LastDataSize(131054) == 65515
    ensures LastLengthAsWritten(131054) == 16
    ensures LastLength(131054) == 65531
  {
  }

  /** buildSingleSegmentICC: the APP2 length (size - 4) at 0x04 and the
      profile size (size - 20) at 0x16, both 16-bit; a buffer too short for
      either field fails as updateValue does. */
  function BuildSingleSegmentIcc(segment: seq<byte>): (r: Result<seq<byte>, IoError>)
    requires |segment| < SizeModulus
    ensures r.Success? <==> |segment| >= 0x18
    ensures r.Success? ==> |r.value| == |segment|
    ensures r.Success? ==> BE(r.value[0x04..0x06]) == (|segment| - 4) % 0x1_0000
    ensures r.Success? ==> BE(r.value[0x16..0x18]) == (|segment| - 20) % 0x1_0000
    ensures r.Success? ==> forall j :: 0 <= j < |segment| && j !in {4, 5, 0x16, 0x17} ==> r.value[j] == segment[j]
  {
    var segmentSize := SizeSub(|segment|, 4);
    var first :- UpdateValue(segment, 0x04, segmentSize, 2);
    var second :- UpdateValue(first, 0x16, SizeSub(segmentSize, 16), 2);
    assert second[0x04..0x06] == first[0x04..0x06];
    Success(second)
  }

  const RedditPaddingSize: nat := 8000
  const RedditPaddingHeader: seq<byte> := [0xFF, 0xE2, 0x1F, 0x42]

  /** The block inserted in front of the data: an APP2 marker with length
      0x1F42 (8002) and the 8000 padding bytes. `noise` stands for the
      values drawn from randombytes_uniform(94); each padding byte is 33
      plus one of them, so it is a printable ASCII character. */
  function RedditPadding(noise: seq<byte>): (p: seq<byte>)
    requires |noise| == RedditPaddingSize && forall i :: 0 <= i < |noise| ==> noise[i] < 94
    ensures |p| == 4 + RedditPaddingSize
    ensures p[..4] == RedditPaddingHeader
    ensures forall i :: 4 <= i < |p| ==> 33 <= p[i] <= 126
  {
    RedditPaddingHeader + seq(RedditPaddingSize, i requires 0 <= i < RedditPaddingSize => 33 + noise[i])
  }

  /** applyRedditPadding: SOI goes in front of the image, and the padding
      block and the data without its own first 2 bytes go in front of the
      image's last 2 bytes (its EOI marker). */
  function ApplyRedditPadding(jpg: seq<byte>, data: seq<byte>, soi: seq<byte>, noise: seq<byte>): (r: seq<byte>)
    requires |soi| >= 2 && |data| >= 2
    requires |noise| == RedditPaddingSize && forall i :: 0 <= i < |noise| ==> noise[i] < 94
    ensures |r| == |jpg| + 4 + RedditPaddingSize + |data|
    ensures r[..|jpg|] == (soi[..2] + jpg)[..|jpg|]
    ensures r[|jpg|..|jpg| + 4] == RedditPaddingHeader
    ensures forall i :: |jpg| + 4 <= i < |jpg| + 4 + RedditPaddingSize ==> 33 <= r[i] <= 126
    ensures r[|jpg| + 4 + RedditPaddingSize..|r| - 2] == data[2..]
    ensures r[|r| - 2..] == (soi[..2] + jpg)[|jpg|..]
  {
    var j := soi[..2] + jpg;
    var p := RedditPadding(noise);
    var r := j[..|j| - 2] + p + data[2..] + j[|j| - 2..];
    assert r[|jpg|..|jpg| + 4 + RedditPaddingSize] == p;
    assert r[|jpg|..|jpg| + 4] == p[..4];
    assert forall i :: |jpg| + 4 <= i < |jpg| + 4 + RedditPaddingSize ==> r[i] == p[i - |jpg|];
    r
  }

  /** Result of segmentDataFile: the three buffers and the compatibility
      report after the call (data_vec is always left empty). */
  datatype Segmented = Segmented(segment: seq<byte>, jpg: seq<byte>, platforms: seq<string>)

  /** Removing the entries at index 5 and then at index 2. */
  function DropBlueskyAndReddit(platforms: seq<string>): (r: seq<string>)
    requires |platforms| >= 6
    ensures |r| == |platforms| - 2
    ensures r == platforms[..2] + platforms[3..5] + platforms[6..]
  {
    var once := platforms[..5] + platforms[6..];
    once[..2] + once[3..]
  }

  /** The multi-segment profile is less than twice the segment's size: the
      18 bytes added per segment are far fewer than the 65519 each carries. */
  lemma {:induction false} MultiSegmentSizeBound(size: nat)
    requires size > MaxFirstSegmentSize
    ensures 2 + (size - 20) + SegmentsRequired(size) * SegmentPrefix < 2 * size
  {
    var a := size - SegmentHeaderLength;
    var q := a / SegmentDataSize;
    assert q * SegmentDataSize <= a;
    assert SegmentsRequired(size) <= q + 1;
    assert SegmentsRequired(size) * SegmentPrefix <= q * SegmentPrefix + SegmentPrefix;
    assert q * SegmentPrefix <= q * SegmentDataSize;
  }

  /** std::vector cannot hold more than PTRDIFF_MAX bytes. */
  const VectorMaxSize: nat := 0x8000_0000_0000_0000

  /** The profile as built by segmentDataFile before it is placed: a
      multi-segment profile when the segment exceeds 65539 bytes, otherwise
      the single-segment one, with its size minus 851 (size_t arithmetic)
      written as a 4-byte value at 0x2E2. */
  function ProfileData(segment: seq<byte>): (r: Result<seq<byte>, IoError>)
    requires |segment| >= 2 && |segment| < VectorMaxSize
    ensures r.Success? <==> |segment| >= DeflatedSizeIndex + 4
    ensures r.Success? ==> |r.value| >= DeflatedSizeIndex + 4 && r.value[..2] == segment[..2]
    ensures r.Success? ==> |r.value| < SizeModulus
    ensures r.Success? ==> BE(r.value[DeflatedSizeIndex..DeflatedSizeIndex + 4]) == SizeSub(|r.value|, ProfileDataSize) % Pow256(4)
    ensures r.Success? && |segment| <= MaxFirstSegmentSize ==> |r.value| == |segment|
    ensures r.Success? && |segment| > MaxFirstSegmentSize ==>
      |r.value| == 2 + (|segment| - 20) + SegmentsRequired(|segment|) * SegmentPrefix
  {
    var data :- if |segment| > MaxFirstSegmentSize then Success(BuildMultiSegmentIcc(segment, segment[..2]))
                else BuildSingleSegmentIcc(segment);
    assert |data| < SizeModulus by {
      if |segment| > MaxFirstSegmentSize {
        MultiSegmentSizeBound(|segment|);
      }
    }
    var sized :- UpdateValue(data, DeflatedSizeIndex, SizeSub(|data|, ProfileDataSize), 4);
    assert sized[..2] == data[..2];
    Success(sized)
  }

  /** segmentDataFile. A moved-from or cleared vector is modelled as empty.
      With the Reddit option the profile goes into the image behind the
      padding block and only the Reddit report entry is kept; otherwise
      the Bluesky and Reddit entries are dropped and a profile under 20 MiB
      is merged in front of the image, a larger one is kept apart for a
      split write. */
  function SegmentDataFile(segment: seq<byte>, jpg: seq<byte>, platforms: seq<string>, reddit: bool, noise: seq<byte>): (r: Result<Segmented, IoError>)
    requires |segment| >= 2 && |segment| < VectorMaxSize
    requires |platforms| >= 6
    requires |noise| == RedditPaddingSize && forall i :: 0 <= i < |noise| ==> noise[i] < 94
    ensures r.Success? <==> ProfileData(segment).Success?
    ensures r.Success? && reddit ==> r.value.platforms == [platforms[5]] && r.value.segment == []
    ensures r.Success? && reddit ==> r.value.jpg == ApplyRedditPadding(jpg, ProfileData(segment).value, segment[..2], noise)
    ensures r.Success? && !reddit ==> r.value.platforms == platforms[..2] + platforms[3..5] + platforms[6..]
    ensures r.Success? && !reddit ==> r.value.segment + r.value.jpg == ProfileData(segment).value + jpg
    ensures r.Success? && !reddit ==>
      (r.value.segment == [] <==> |ProfileData(segment).value| < MergeThreshold)
    ensures r.Success? && !reddit && r.value.segment != [] ==> r.value.jpg == jpg
  {
    var data :- ProfileData(segment);
    if reddit then
      Success(Segmented([], ApplyRedditPadding(jpg, data, segment[..2], noise), [platforms[5]]))
    else
      var platforms' := DropBlueskyAndReddit(platforms);
      if |data| < MergeThreshold then Success(Segmented([], data + jpg, platforms'))
      else Success(Segmented(data, jpg, platforms'))
  }

  /** One row of PLATFORM_LIMITS: the largest image, first segment and
      segment count a platform accepts. */
  datatype PlatformLimits = PlatformLimits(name: string, maxImage: nat, maxFirstSegment: nat, maxSegments: nat)

  const SizeMax: nat := SizeModulus - 1
  const Uint16Max: nat := 0xFFFF
  const MiB: nat := 1024 * 1024

  const PlatformTable: seq<PlatformLimits> := [
    PlatformLimits("X-Twitter", 5 * MiB, 10 * 1024, Uint16Max),
    PlatformLimits("Tumblr", SizeMax, 65534, Uint16Max),
    PlatformLimits("Mastodon", 16 * MiB, SizeMax, 100),
    PlatformLimits("Pixelfed", 15 * MiB, SizeMax, Uint16Max),
    PlatformLimits("PostImage", 32 * MiB, SizeMax, Uint16Max),
    PlatformLimits("ImgBB", 32 * MiB, SizeMax, Uint16Max),
    PlatformLimits("ImgPile", 100 * MiB, SizeMax, Uint16Max),
    PlatformLimits("Flickr", 200 * MiB, SizeMax, Uint16Max)
  ]

  /** The report line that replaces an empty list: two backspaces, then the
      "Unknown!" notice. */
  const UnknownPlatforms: string := ['\U{0008}', '\U{0008}'] + "Unknown!\n\n Due to the large file size of the output JPG image, "
    + "I'm unaware of any\n compatible platforms that this image can be "
    + "posted on. Local use only?"

  /** The limits of the first table row whose name is `platform`. */
  function LimitsFor(table: seq<PlatformLimits>, platform: string): (r: Option<PlatformLimits>)
    ensures r.Some? ==> r.value in table && r.value.name == platform
    ensures r.None? <==> forall i :: 0 <= i < |table| ==> table[i].name != platform
  {
    if |table| == 0 then None
    else if table[0].name == platform then Some(table[0])
    else LimitsFor(table[1..], platform)
  }

  /** The erase_if predicate: a listed platform whose limits are exceeded
      by any of the three sizes. Unlisted names are never removed. */
  predicate Exceeds(platform: string, embedded: nat, first: nat, total: nat)
  {
    match LimitsFor(PlatformTable, platform)
    case None => false
    case Some(l) => embedded > l.maxImage || first > l.maxFirstSegment || total > l.maxSegments
  }

  /** std::erase_if with Exceeds: the entries that stay, in order. */
  function KeepCompatible(platforms: seq<string>, embedded: nat, first: nat, total: nat): (r: seq<string>)
    ensures |r| <= |platforms|
    ensures forall i :: 0 <= i < |r| ==> r[i] in platforms && !Exceeds(r[i], embedded, first, total)
    ensures forall p :: p in platforms && !Exceeds(p, embedded, first, total) ==> p in r
  {
    if |platforms| == 0 then []
    else
      var rest := KeepCompatible(platforms[1..], embedded, first, total);
      if Exceeds(platforms[0], embedded, first, total) then rest else [platforms[0]] + rest
  }

  /** filterPlatforms: the compatible entries, or the single "Unknown!"
      line when none is left. The two segment figures are uint16 values. */
  function FilterPlatforms(platforms: seq<string>, embedded: nat, first: nat, total: nat): (r: seq<string>)
    requires embedded < SizeModulus && first <= Uint16Max && total <= Uint16Max
    ensures |r| >= 1
    ensures r == [UnknownPlatforms] <==> KeepCompatible(platforms, embedded, first, total) == [] || KeepCompatible(platforms, embedded, first, total) == [UnknownPlatforms]
    ensures r != [UnknownPlatforms] ==> forall i :: 0 <= i < |r| ==> r[i] in platforms && !Exceeds(r[i], embedded, first, total)
  {
    var kept := KeepCompatible(platforms, embedded, first, total);
    if kept == [] then [UnknownPlatforms] else kept
  }

  /** Filtering commutes with splitting the list: each entry is judged on
      its own. */
  lemma {:induction false} KeepCompatibleAppend(a: seq<string>, b: seq<string>, embedded: nat, first: nat, total: nat)
    ensures KeepCompatible(a + b, embedded, first, total)
         == KeepCompatible(a, embedded, first, total) + KeepCompatible(b, embedded, first, total)
  {
    if |a| == 0 {
      assert a + b == b;
    } else {
      assert (a + b)[1..] == a[1..] + b;
      KeepCompatibleAppend(a[1..], b, embedded, first, total);
    }
  }

  /** Filtering twice with the same sizes removes nothing more. */
  lemma {:induction false} KeepCompatibleIdempotent(platforms: seq<string>, embedded: nat, first: nat, total: nat)
    ensures KeepCompatible(KeepCompatible(platforms, embedded, first, total), embedded, first, total)
         == KeepCompatible(platforms, embedded, first, total)
  {
    if |platforms| > 0 {
      var rest := KeepCompatible(platforms[1..], embedded, first, total);
      KeepCompatibleIdempotent(platforms[1..], embedded, first, total);
      if !Exceeds(platforms[0], embedded, first, total) {
        assert ([platforms[0]] + rest)[1..] == rest;
      }
    }
  }

  /** Mastodon accepts at most 100 segments. */
  lemma MastodonSegmentLimit()
    ensures Exceeds("Mastodon", 1000, 100, 101)
    ensures !Exceeds("Mastodon", 1000, 100, 100)
  {
    assert LimitsFor(PlatformTable, "Mastodon") == Some(PlatformTable[2]) by {
      assert PlatformTable[0].name != "Mastodon" && PlatformTable[1].name != "Mastodon";
      assert PlatformTable[1..][1..] == PlatformTable[2..];
    }
  }

  /** X-Twitter accepts a first segment of at most 10 KiB. */
  lemma TwitterFirstSegmentLimit()
    ensures Exceeds("X-Twitter", 1000, 10 * 1024 + 1, 1)
    ensures !Exceeds("X-Twitter", 1000, 10 * 1024, 1)
  {
    assert LimitsFor(PlatformTable, "X-Twitter") == Some(PlatformTable[0]);
  }
}

/** The Bluesky layout of the encrypted payload (buildBlueskySegments and
    reassembleBlueskyData in encryption.cpp): the first 65027 bytes go into
    the EXIF segment of the template, up to two IPTC datasets of a Photoshop
    APP13 segment take the next 32767 and 32730 bytes, and the remainder is
    base64 text inside an XMP APP1 segment placed in front of the APP13 one.
    Reassembly copies the dataset and XMP parts back behind the EXIF part. */
module Bluesky {
  import opened Wrappers
  import opened Bytes
  import opened BinaryIo
  import Base64

  const CompressedSizeIndex: nat := 0x1CD
  const ExifDataLimit: nat := 65027
  const ExifInsertIndex: nat := 0x1D1
  const ExifSizeIndex: nat := 0x04
  const ArtistSizeIndex: nat := 0x4A
  const ArtistSizeDiff: nat := 140
  const FirstDatasetLimit: nat := 32767
  const LastDatasetLimit: nat := 32730
  const FirstDatasetSizeIndex: nat := 0x21
  const XmpSegmentLimit: nat := 60033
  const SegmentSizeIndex: nat := 0x2
  const BimSectionSizeIndex: nat := 0x1C
  const BimSectionSizeDiff: nat := 28

  /** Data of more than this many bytes needs the XMP segment. */
  const XmpThreshold: nat := ExifDataLimit + FirstDatasetLimit + LastDatasetLimit

  /** The largest payload whose XMP segment stays within 60033 bytes:
      313 + 4 * ceil(44721 / 3) + 92 == 60033. */
  const MaxBlueskyData: nat := XmpThreshold + 44721

  const DatasetMarker: seq<byte> := [0x1C, 0x08, 0x0A]

  /** "shop 3.", found 9 bytes into the APP13 segment. */
  const PhotoshopSig: seq<byte> := [0x73, 0x68, 0x6F, 0x70, 0x20, 0x33, 0x2E]

  /** "<rdf:li", the start of the tag that precedes the base64 text. */
  const XmpCreatorSig: seq<byte> := [0x3C, 0x72, 0x64, 0x66, 0x3A, 0x6C, 0x69]

  /** '<', which ends the base64 text. */
  const Base64End: byte := 0x3C

  /** APP13 "Photoshop 3.0" / "8BIM" segment with the first IPTC dataset
      header (1C 08 0A) and its default size 0x7FFF. */
  const PhotoshopSegment: seq<byte> :=
    [0xFF, 0xED, 0xFF, 0xFF, 0x50, 0x68, 0x6F, 0x74, 0x6F, 0x73, 0x68, 0x6F, 0x70, 0x20, 0x33, 0x2E]
    + [0x30, 0x00, 0x38, 0x42, 0x49, 0x4D, 0x04, 0x04, 0x00, 0x00, 0x00, 0x00, 0xFF, 0xE3, 0x1C, 0x08]
    + [0x0A, 0x7F, 0xFF]

  /** APP1 XMP packet head, ending with the <rdf:li> that opens dc:creator. */
  const XmpSegment: seq<byte> :=
    [0xFF, 0xE1, 0x01, 0x93, 0x68, 0x74, 0x74, 0x70, 0x3A, 0x2F, 0x2F, 0x6E, 0x73, 0x2E, 0x61, 0x64]
    + [0x6F, 0x62, 0x65, 0x2E, 0x63, 0x6F, 0x6D, 0x2F, 0x78, 0x61, 0x70, 0x2F, 0x31, 0x2E, 0x30, 0x2F]
    + [0x00, 0x3C, 0x3F, 0x78, 0x70, 0x61, 0x63, 0x6B, 0x65, 0x74, 0x20, 0x62, 0x65, 0x67, 0x69, 0x6E]
    + [0x3D, 0x22, 0x22, 0x20, 0x69, 0x64, 0x3D, 0x22, 0x57, 0x35, 0x4D, 0x30, 0x4D, 0x70, 0x43, 0x65]
    + [0x68, 0x69, 0x48, 0x7A, 0x72, 0x65, 0x53, 0x7A, 0x4E, 0x54, 0x63, 0x7A, 0x6B, 0x63, 0x39, 0x64]
    + [0x22, 0x3F, 0x3E, 0x0A, 0x3C, 0x78, 0x3A, 0x78, 0x6D, 0x70, 0x6D, 0x65, 0x74, 0x61, 0x20, 0x78]
    + [0x6D, 0x6C, 0x6E, 0x73, 0x3A, 0x78, 0x3D, 0x22, 0x61, 0x64, 0x6F, 0x62, 0x65, 0x3A, 0x6E, 0x73]
    + [0x3A, 0x6D, 0x65, 0x74, 0x61, 0x2F, 0x22, 0x20, 0x78, 0x3A, 0x78, 0x6D, 0x70, 0x74, 0x6B, 0x3D]
    + [0x22, 0x47, 0x6F, 0x20, 0x58, 0x4D, 0x50, 0x20, 0x53, 0x44, 0x4B, 0x20, 0x31, 0x2E, 0x30, 0x22]
    + [0x3E, 0x3C, 0x72, 0x64, 0x66, 0x3A, 0x52, 0x44, 0x46, 0x20, 0x78, 0x6D, 0x6C, 0x6E, 0x73, 0x3A]
    + [0x72, 0x64, 0x66, 0x3D, 0x22, 0x68, 0x74, 0x74, 0x70, 0x3A, 0x2F, 0x2F, 0x77, 0x77, 0x77, 0x2E]
    + [0x77, 0x33, 0x2E, 0x6F, 0x72, 0x67, 0x2F, 0x31, 0x39, 0x39, 0x39, 0x2F, 0x30, 0x32, 0x2F, 0x32]
    + [0x32, 0x2D, 0x72, 0x64, 0x66, 0x2D, 0x73, 0x79, 0x6E, 0x74, 0x61, 0x78, 0x2D, 0x6E, 0x73, 0x23]
    + [0x22, 0x3E, 0x3C, 0x72, 0x64, 0x66, 0x3A, 0x44, 0x65, 0x73, 0x63, 0x72, 0x69, 0x70, 0x74, 0x69]
    + [0x6F, 0x6E, 0x20, 0x78, 0x6D, 0x6C, 0x6E, 0x73, 0x3A, 0x64, 0x63, 0x3D, 0x22, 0x68, 0x74, 0x74]
    + [0x70, 0x3A, 0x2F, 0x2F, 0x70, 0x75, 0x72, 0x6C, 0x2E, 0x6F, 0x72, 0x67, 0x2F, 0x64, 0x63, 0x2F]
    + [0x65, 0x6C, 0x65, 0x6D, 0x65, 0x6E, 0x74, 0x73, 0x2F, 0x31, 0x2E, 0x31, 0x2F, 0x22, 0x20, 0x72]
    + [0x64, 0x66, 0x3A, 0x61, 0x62, 0x6F, 0x75, 0x74, 0x3D, 0x22, 0x22, 0x3E, 0x3C, 0x64, 0x63, 0x3A]
    + [0x63, 0x72, 0x65, 0x61, 0x74, 0x6F, 0x72, 0x3E, 0x3C, 0x72, 0x64, 0x66, 0x3A, 0x53, 0x65, 0x71]
    + [0x3E, 0x3C, 0x72, 0x64, 0x66, 0x3A, 0x6C, 0x69, 0x3E]

  /** The XMP packet tail, starting with </rdf:li>. */
  const XmpFooter: seq<byte> :=
    [0x3C, 0x2F, 0x72, 0x64, 0x66, 0x3A, 0x6C, 0x69, 0x3E, 0x3C, 0x2F, 0x72, 0x64, 0x66, 0x3A, 0x53]
    + [0x65, 0x71, 0x3E, 0x3C, 0x2F, 0x64, 0x63, 0x3A, 0x63, 0x72, 0x65, 0x61, 0x74, 0x6F, 0x72, 0x3E]
    + [0x3C, 0x2F, 0x72, 0x64, 0x66, 0x3A, 0x44, 0x65, 0x73, 0x63, 0x72, 0x69, 0x70, 0x74, 0x69, 0x6F]
    + [0x6E, 0x3E, 0x3C, 0x2F, 0x72, 0x64, 0x66, 0x3A, 0x52, 0x44, 0x46, 0x3E, 0x3C, 0x2F, 0x78, 0x3A]
    + [0x78, 0x6D, 0x70, 0x6D, 0x65, 0x74, 0x61, 0x3E, 0x0A, 0x3C, 0x3F, 0x78, 0x70, 0x61, 0x63, 0x6B]
    + [0x65, 0x74, 0x20, 0x65, 0x6E, 0x64, 0x3D, 0x22, 0x77, 0x22, 0x3F, 0x3E]

  /** The three fixed byte strings the layout is built from, and the only
      properties of them the layout relies on: their lengths, the two size
      fields of the APP13 template, and the signatures reassembly searches
      for. */
  datatype Templates = Templates(photoshop: seq<byte>, xmpHead: seq<byte>, xmpFooter: seq<byte>)
  {
    predicate Valid()
    {
      |photoshop| == 35 &&
      photoshop[SegmentSizeIndex] == 0xFF && photoshop[SegmentSizeIndex + 1] == 0xFF &&
      photoshop[FirstDatasetSizeIndex] == 0x7F && photoshop[FirstDatasetSizeIndex + 1] == 0xFF &&
      photoshop[9..16] == PhotoshopSig &&
      |xmpHead| == 313 && xmpHead[305..312] == XmpCreatorSig &&
      |xmpFooter| == 92 && xmpFooter[0] == Base64End
    }
  }

  const SourceTemplates: Templates := Templates(PhotoshopSegment, XmpSegment, XmpFooter)

  /** The program's byte strings have the properties the layout relies on. */
  lemma SourceTemplatesValid()
    ensures SourceTemplates.Valid()
  {
    assert |PhotoshopSegment| == 35;
  }

  datatype BuildError = SegmentTooShort | XmpTooLarge


  /** The template with the first dataset size set to `first`; the
      template already holds 32767, so it is written only when smaller. */
  function PhotoshopHead(t: Templates, first: nat): (h: seq<byte>)
    requires t.Valid() && first <= FirstDatasetLimit
    ensures |h| == 35 && h[..FirstDatasetSizeIndex] == t.photoshop[..FirstDatasetSizeIndex]
    ensures BE(h[FirstDatasetSizeIndex..FirstDatasetSizeIndex + 2]) == first
  {
    if FirstDatasetLimit > first then
      var h := WriteBE(t.photoshop, FirstDatasetSizeIndex, first, 2);
      assert h[..FirstDatasetSizeIndex] == t.photoshop[..FirstDatasetSizeIndex];
      Pow256Two();
      assert BE(h[FirstDatasetSizeIndex..FirstDatasetSizeIndex + 2]) == first % 0x1_0000;
      assert first % 0x1_0000 == first;
      h
    else
      TemplateFirstSize(t);
      t.photoshop
  }

  lemma TemplateFirstSize(t: Templates)
    requires t.Valid()
    ensures BE(t.photoshop[FirstDatasetSizeIndex..FirstDatasetSizeIndex + 2]) == FirstDatasetLimit
  {
    BE2(t.photoshop[FirstDatasetSizeIndex..FirstDatasetSizeIndex + 2]);
  }

  /** The APP13 segment holding `rest` (the bytes after the EXIF part) in
      one or two IPTC datasets, before its size fields are patched. */
  function PhotoshopPart(t: Templates, rest: seq<byte>): (p: seq<byte>)
    requires t.Valid() && |rest| > 0
    ensures |p| == 35 + Min(FirstDatasetLimit, |rest|)
                 + (if |rest| > FirstDatasetLimit then 5 + Min(LastDatasetLimit, |rest| - FirstDatasetLimit) else 0)
  {
    var first := Min(FirstDatasetLimit, |rest|);
    var one := PhotoshopHead(t, first) + rest[..first];
    if |rest| <= FirstDatasetLimit then one
    else
      var last := Min(LastDatasetLimit, |rest| - FirstDatasetLimit);
      one + DatasetMarker + ToBE(last, 2) + rest[FirstDatasetLimit..FirstDatasetLimit + last]
  }

  /** The APP13 segment keeps the template's signature and segment size
      field, then the first dataset's size and bytes. */
  lemma PhotoshopFirstDataset(t: Templates, rest: seq<byte>)
    requires t.Valid() && |rest| > 0
    ensures var p := PhotoshopPart(t, rest);
      var first := Min(FirstDatasetLimit, |rest|);
      p[..FirstDatasetSizeIndex] == t.photoshop[..FirstDatasetSizeIndex] &&
      BE(p[FirstDatasetSizeIndex..FirstDatasetSizeIndex + 2]) == first &&
      p[35..35 + first] == rest[..first]
  {
    var p := PhotoshopPart(t, rest);
    var first := Min(FirstDatasetLimit, |rest|);
    var h := PhotoshopHead(t, first);
    assert p[..35] == h;
    assert p[..FirstDatasetSizeIndex] == h[..FirstDatasetSizeIndex];
    assert p[FirstDatasetSizeIndex..FirstDatasetSizeIndex + 2] == h[FirstDatasetSizeIndex..FirstDatasetSizeIndex + 2];
    assert p[35..35 + first] == rest[..first];
  }

  /** Past 32767 bytes a second dataset follows the first: marker, size,
      bytes. */
  lemma PhotoshopSecondDataset(t: Templates, rest: seq<byte>)
    requires t.Valid() && |rest| > FirstDatasetLimit
    ensures var p := PhotoshopPart(t, rest);
      var last := Min(LastDatasetLimit, |rest| - FirstDatasetLimit);
      var at := 35 + FirstDatasetLimit + 3;
      BE(p[at..at + 2]) == last &&
      p[at + 2..at + 2 + last] == rest[FirstDatasetLimit..FirstDatasetLimit + last]
  {
    var p := PhotoshopPart(t, rest);
    var last := Min(LastDatasetLimit, |rest| - FirstDatasetLimit);
    var one := PhotoshopHead(t, FirstDatasetLimit) + rest[..FirstDatasetLimit];
    var at := 35 + FirstDatasetLimit + 3;
    assert |one| == at - 3;
    assert p == one + DatasetMarker + ToBE(last, 2) + rest[FirstDatasetLimit..FirstDatasetLimit + last];
    assert p[at..at + 2] == ToBE(last, 2);
    Pow256Two();
    BEToBEFits(last, 2);
    assert p[at + 2..at + 2 + last] == rest[FirstDatasetLimit..FirstDatasetLimit + last];
  }

  /** The APP13 segment with its segment size and 8BIM section size
      patched, as done when there is no XMP segment. */
  function PatchPhotoshop(p: seq<byte>): (r: seq<byte>)
    requires |p| > 35
    ensures |r| == |p|
    ensures BE(r[SegmentSizeIndex..SegmentSizeIndex + 2]) == (|p| - 2) % 0x1_0000
    ensures BE(r[BimSectionSizeIndex..BimSectionSizeIndex + 2]) == (|p| - 2 - BimSectionSizeDiff) % 0x1_0000
    ensures forall j :: 0 <= j < |p| ==>
      (SegmentSizeIndex <= j < SegmentSizeIndex + 2) || (BimSectionSizeIndex <= j < BimSectionSizeIndex + 2) || r[j] == p[j]
  {
    var sized := WriteBE(p, SegmentSizeIndex, |p| - 2, 2);
    var r := WriteBE(sized, BimSectionSizeIndex, |p| - 2 - BimSectionSizeDiff, 2);
    assert r[SegmentSizeIndex..SegmentSizeIndex + 2] == sized[SegmentSizeIndex..SegmentSizeIndex + 2];
    r
  }

  /** Bytes from `from` on agree when no index from there on was changed. */
  lemma KeptAfter(a: seq<byte>, b: seq<byte>, from: nat)
    requires |a| == |b| && from <= |a|
    requires forall j :: from <= j < |a| ==> b[j] == a[j]
    ensures forall i, k :: from <= i <= k <= |a| ==> b[i..k] == a[i..k]
  {
    forall i, k | from <= i <= k <= |a|
      ensures b[i..k] == a[i..k]
    {
      assert forall j :: 0 <= j < k - i ==> b[i..k][j] == a[i..k][j];
    }
  }

  /** The XMP segment carrying the base64 text `text`, its length field
      patched. */
  function XmpPart(t: Templates, text: seq<byte>): (x: seq<byte>)
    requires t.Valid()
    ensures |x| == 313 + |text| + 92
    ensures x[4..313] == t.xmpHead[4..]
    ensures x[313..313 + |text|] == text
    ensures x[313 + |text|..] == t.xmpFooter
  {
    var raw := t.xmpHead + text + t.xmpFooter;
    assert |raw| == 313 + |text| + 92;
    assert raw[4..313] == t.xmpHead[4..];
    assert raw[313..313 + |text|] == text;
    assert raw[313 + |text|..] == t.xmpFooter;
    var x := WriteBE(raw, SegmentSizeIndex, |raw| - 2, 2);
    KeptAfter(raw, x, SegmentSizeIndex + 2);
    x
  }

  /** The XMP segment's length field counts everything after the marker,
      modulo 2^16. */
  lemma XmpPartSizeField(t: Templates, text: seq<byte>)
    requires t.Valid()
    ensures var x := XmpPart(t, text);
      BE(x[SegmentSizeIndex..SegmentSizeIndex + 2]) == (|x| - 2) % 0x1_0000
  {
    var raw := t.xmpHead + text + t.xmpFooter;
    assert XmpPart(t, text) == WriteBE(raw, SegmentSizeIndex, |raw| - 2, 2);
  }

  /** The XMP segment stays within 60033 bytes exactly when at most 44721
      bytes are left for it. */
  lemma XmpFits(t: Templates, rest: seq<byte>)
    requires t.Valid()
    ensures |XmpPart(t, Base64.Encode(rest))| <= XmpSegmentLimit <==> |rest| <= 44721
  {
    Base64.EncodeLength(rest);
    var k := (|rest| + 2) / 3;
    assert |XmpPart(t, Base64.Encode(rest))| == 405 + 4 * k;
    assert k <= 14907 <==> |rest| <= 44721;
  }

  /** The segments appended behind the EXIF segment when the payload
      exceeds 65027 bytes: the XMP segment (if any) comes first, and only
      without it are the APP13 size fields patched. */
  function OverflowSegments(t: Templates, rest: seq<byte>): (r: Result<seq<byte>, BuildError>)
    requires t.Valid() && |rest| > 0
    ensures r.Failure? <==> |rest| > FirstDatasetLimit + LastDatasetLimit + 44721
    ensures r.Failure? ==> r.error == XmpTooLarge
  {
    var p := PhotoshopPart(t, rest);
    if |rest| <= FirstDatasetLimit + LastDatasetLimit then Success(PatchPhotoshop(p))
    else
      var x := XmpPart(t, Base64.Encode(rest[FirstDatasetLimit + LastDatasetLimit..]));
      XmpFits(t, rest[FirstDatasetLimit + LastDatasetLimit..]);
      if |x| > XmpSegmentLimit then Failure(XmpTooLarge)
      else Success(x + p)
  }

  /** Bytes before 0x1CD other than the two EXIF size fields. */
  predicate OutsideSizeFields(j: nat)
  {
    j < CompressedSizeIndex && !(ExifSizeIndex <= j < ExifSizeIndex + 2) && !(ArtistSizeIndex <= j < ArtistSizeIndex + 4)
  }

  /** The three size fields patched for a payload of n <= 65027 bytes:
      the compressed size at 0x1CD, the EXIF segment size at 0x04 and the
      artist field size at 0x4A. */
  function PatchSizeFields(segment: seq<byte>, n: nat): (s: seq<byte>)
    requires |segment| >= ExifInsertIndex
    ensures |s| == |segment|
    ensures BE(s[CompressedSizeIndex..CompressedSizeIndex + 4]) == n % Pow256(4)
    ensures BE(s[ExifSizeIndex..ExifSizeIndex + 2]) == (n + |segment| - 4) % 0x1_0000
    ensures BE(s[ArtistSizeIndex..ArtistSizeIndex + 4]) == (n + |segment| - 4 - ArtistSizeDiff) % Pow256(4)
    ensures forall j: nat :: OutsideSizeFields(j) ==> s[j] == segment[j]
    ensures s[CompressedSizeIndex + 4..] == segment[CompressedSizeIndex + 4..]
  {
    var exifSize := n + (|segment| - 4);
    var sized := WriteBE(segment, CompressedSizeIndex, n, 4);
    var artist := WriteBE(sized, ArtistSizeIndex, exifSize - ArtistSizeDiff, 4);
    var s := WriteBE(artist, ExifSizeIndex, exifSize, 2);
    assert s[CompressedSizeIndex..CompressedSizeIndex + 4] == sized[CompressedSizeIndex..CompressedSizeIndex + 4];
    assert s[ArtistSizeIndex..ArtistSizeIndex + 4] == artist[ArtistSizeIndex..ArtistSizeIndex + 4];
    s
  }

  /** A payload of at most 65027 bytes is inserted whole at 0x1D1 behind
      the patched size fields. */
  function InsertWhole(segment: seq<byte>, data: seq<byte>): (r: seq<byte>)
    requires |segment| >= ExifInsertIndex && |data| <= ExifDataLimit
    ensures |r| == |segment| + |data|
    ensures r[..ExifInsertIndex] == PatchSizeFields(segment, |data|)[..ExifInsertIndex]
    ensures r[ExifInsertIndex..ExifInsertIndex + |data|] == data
    ensures r[ExifInsertIndex + |data|..] == segment[ExifInsertIndex..]
  {
    var s := PatchSizeFields(segment, |data|);
    var r := s[..ExifInsertIndex] + data + s[ExifInsertIndex..];
    assert r[ExifInsertIndex + |data|..] == s[ExifInsertIndex..];
    r
  }

  /** A larger payload: only the compressed size is patched, the first
      65027 bytes go in at 0x1D1 and the overflow segments are appended. */
  function InsertSplit(segment: seq<byte>, data: seq<byte>, tail: seq<byte>): (r: seq<byte>)
    requires |segment| >= ExifInsertIndex && |data| > ExifDataLimit
    ensures |r| == |segment| + ExifDataLimit + |tail|
    ensures BE(r[CompressedSizeIndex..CompressedSizeIndex + 4]) == |data| % Pow256(4)
    ensures r[ExifInsertIndex..ExifInsertIndex + ExifDataLimit] == data[..ExifDataLimit]
    ensures r[ExifInsertIndex + ExifDataLimit..|segment| + ExifDataLimit] == segment[ExifInsertIndex..]
    ensures r[|segment| + ExifDataLimit..] == tail
    ensures forall j: nat :: OutsideSizeFields(j) ==> r[j] == segment[j]
  {
    var sized := WriteBE(segment, CompressedSizeIndex, |data|, 4);
    var r := sized[..ExifInsertIndex] + data[..ExifDataLimit] + sized[ExifInsertIndex..] + tail;
    assert r[CompressedSizeIndex..CompressedSizeIndex + 4] == sized[CompressedSizeIndex..CompressedSizeIndex + 4];
    assert r[ExifInsertIndex..ExifInsertIndex + ExifDataLimit] == data[..ExifDataLimit];
    assert r[ExifInsertIndex + ExifDataLimit..|segment| + ExifDataLimit] == segment[ExifInsertIndex..];
    r
  }

  /** buildBlueskySegments. The first updateValue, at 0x1CD, is the one
      that fails on a short segment; the later ones lie before it. */
  function BuildBlueskySegments(t: Templates, segment: seq<byte>, data: seq<byte>): (r: Result<seq<byte>, BuildError>)
    requires t.Valid()
    ensures r.Failure? <==> |segment| < ExifInsertIndex || |data| > MaxBlueskyData
    ensures r.Success? ==> |r.value| >= |segment| + Min(|data|, ExifDataLimit)
    ensures r.Success? ==> BE(r.value[CompressedSizeIndex..CompressedSizeIndex + 4]) == |data| % Pow256(4)
    ensures r.Success? ==> r.value[ExifInsertIndex..ExifInsertIndex + Min(|data|, ExifDataLimit)] == data[..Min(|data|, ExifDataLimit)]
    ensures r.Success? ==> forall j: nat :: OutsideSizeFields(j) ==> r.value[j] == segment[j]
    ensures r.Success? && |data| <= ExifDataLimit ==>
      |r.value| == |segment| + |data| && r.value[ExifInsertIndex + |data|..] == segment[ExifInsertIndex..]
    ensures r.Success? && |data| <= ExifDataLimit ==>
      BE(r.value[ExifSizeIndex..ExifSizeIndex + 2]) == (|data| + |segment| - 4) % 0x1_0000 &&
      BE(r.value[ArtistSizeIndex..ArtistSizeIndex + 4]) == (|data| + |segment| - 4 - ArtistSizeDiff) % Pow256(4)
    ensures r.Success? && |data| > ExifDataLimit ==>
      r.value == InsertSplit(segment, data, OverflowSegments(t, data[ExifDataLimit..]).value)
  {
    if |segment| < ExifInsertIndex then Failure(SegmentTooShort)
    else if |data| <= ExifDataLimit then
      var r := InsertWhole(segment, data);
      var s := PatchSizeFields(segment, |data|);
      assert r[CompressedSizeIndex..CompressedSizeIndex + 4] == s[CompressedSizeIndex..CompressedSizeIndex + 4];
      assert r[ExifSizeIndex..ExifSizeIndex + 2] == s[ExifSizeIndex..ExifSizeIndex + 2];
      assert r[ArtistSizeIndex..ArtistSizeIndex + 4] == s[ArtistSizeIndex..ArtistSizeIndex + 4];
      Success(r)
    else
      var tail :- OverflowSegments(t, data[ExifDataLimit..]);
      Success(InsertSplit(segment, data, tail))
  }
}

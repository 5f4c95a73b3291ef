/** reassembleBlueskyData (encryption.cpp): put the pieces of a Bluesky
    payload back behind its EXIF part, in place, so that decryption finds
    it whole at 0x1D1. */
module BlueskyReassembly {
  import opened Wrappers
  import opened Bytes
  import opened BinaryIo
  import opened Bluesky
  import Base64

  /** The number of leading bytes the program searches for both
      signatures. */
  const SearchLimit: nat := 125480

  /** A segment size above this means the APP13 segment has a second
      dataset. */
  const DatasetMaxSize: nat := 32800

  const SegmentSizeIndexDiff: nat := 7
  const FirstSizeIndexDiff: nat := 24
  const FileIndexDiff: nat := 2
  const SecondSizeIndexDiff: nat := 3

  /** Distance from the XMP signature, or from the APP13 signature, back
      to the end of the EXIF part of the payload. */
  const XmpExifEndDiff: nat := 351
  const PhotoshopExifEndDiff: nat := 55

  /** ReadOutOfRange is getValue's exception; CopyOutOfRange stands for a
      copy through an iterator outside the image, which the source does not
      check (undefined behaviour). */
  datatype ReassembleError = ReadOutOfRange | CopyOutOfRange | BadBase64(reason: Base64.DecodeError)

  /** A 2-byte big-endian field read with getValue. */
  function Field16(v: seq<byte>, i: nat): (r: Result<nat, ReassembleError>)
    ensures r.Success? <==> i + 2 <= |v|
    ensures r.Success? ==> r.value == BE(v[i..i + 2]) && r.value < 0x1_0000
  {
    match GetValue(v, i, 2)
    case Success(x) =>
      GetValueReadsBE(v, i, 2);
      Pow256Two();
      Success(x)
    case Failure(_) => Failure(ReadOutOfRange)
  }

  /** `n` bytes of `v` from `from`, as copied by vector::insert. */
  function Take(v: seq<byte>, from: nat, n: nat): (r: Result<seq<byte>, ReassembleError>)
    ensures r.Success? <==> from + n <= |v|
    ensures r.Success? ==> r.value == v[from..from + n]
  {
    if from + n > |v| then Failure(CopyOutOfRange) else Success(v[from..from + n])
  }

  /** The dataset bytes collected behind the APP13 signature, and whether
      the segment size announced a second dataset. */
  datatype Datasets = Datasets(bytes: seq<byte>, second: bool)

  /** One IPTC dataset as reassembleBlueskyData reads it: a 2-byte size
      at `sizeIndex`, then that many bytes. */
  function ReadDataset(v: seq<byte>, sizeIndex: nat): (r: Result<seq<byte>, ReassembleError>)
    ensures r.Success? <==>
      sizeIndex + 2 <= |v| && sizeIndex + 2 + BE(v[sizeIndex..sizeIndex + 2]) <= |v|
    ensures r.Success? ==> r.value == v[sizeIndex + 2..sizeIndex + 2 + BE(v[sizeIndex..sizeIndex + 2])]
  {
    var size :- Field16(v, sizeIndex);
    Take(v, sizeIndex + FileIndexDiff, size)
  }

  /** The dataset part of reassembleBlueskyData, for the APP13 signature
      found at `sig`. A signature closer than 7 bytes to the start makes the
      size index wrap below zero; the read is then out of range. */
  function ReadDatasets(v: seq<byte>, sig: nat): (r: Result<Datasets, ReassembleError>)
    ensures sig < SegmentSizeIndexDiff ==> r == Failure(ReadOutOfRange)
    ensures r.Success? ==> SegmentSizeIndexDiff <= sig && sig + FirstSizeIndexDiff + FileIndexDiff <= |v|
    ensures r.Success? ==>
      (r.value.second <==> BE(v[sig - SegmentSizeIndexDiff..sig - SegmentSizeIndexDiff + 2]) > DatasetMaxSize)
    ensures r.Success? ==>
      var first := BE(v[sig + FirstSizeIndexDiff..sig + FirstSizeIndexDiff + 2]);
      var at := sig + FirstSizeIndexDiff + FileIndexDiff;
      at + first <= |v| && first <= |r.value.bytes| && r.value.bytes[..first] == v[at..at + first]
  {
    if sig < SegmentSizeIndexDiff then Failure(ReadOutOfRange)
    else
      var segmentSize :- Field16(v, sig - SegmentSizeIndexDiff);
      var one :- ReadDataset(v, sig + FirstSizeIndexDiff);
      if segmentSize <= DatasetMaxSize then Success(Datasets(one, false))
      else
        var two :- ReadDataset(v, sig + FirstSizeIndexDiff + FileIndexDiff + |one| + SecondSizeIndexDiff);
        assert (one + two)[..|one|] == one;
        Success(Datasets(one + two, true))
  }

  /** std::ranges::find: the first index at or after `from` holding `b`,
      or |v| when there is none. */
  function FindByte(v: seq<byte>, from: nat, b: byte): (r: nat)
    requires from <= |v|
    ensures from <= r <= |v|
    ensures r < |v| ==> v[r] == b
    ensures forall j :: from <= j < r ==> v[j] != b
    decreases |v| - from
  {
    if from == |v| then from
    else if v[from] == b then from
    else FindByte(v, from + 1, b)
  }

  /** The base64 text after the XMP signature at `sig`, up to the next
      '<', decoded and appended to `parts`. */
  function XmpPayload(v: seq<byte>, sig: nat, sigLength: nat, parts: seq<byte>): (r: Result<seq<byte>, ReassembleError>)
    ensures sig + sigLength + 1 > |v| ==> r == Failure(CopyOutOfRange)
    ensures r.Success? ==> |r.value| >= |parts| && r.value[..|parts|] == parts
  {
    var begin := sig + sigLength + 1;
    if begin > |v| then Failure(CopyOutOfRange)
    else
      var end := FindByte(v, begin, Base64End);
      match Base64.AppendBase64AsBinary(v[begin..end], parts)
      case Success(w) => Success(w)
      case Failure(e) => Failure(BadBase64(e))
  }

  /** The collected payload parts and the index they are copied to; the
      index is computed in std::size_t and may fall below zero. */
  datatype Pieces = Pieces(parts: seq<byte>, at: int)

  /** Everything reassembleBlueskyData collects once the APP13 signature
      is found at `ps`: the datasets, then the XMP text if the segment size
      announced a second dataset and the XMP signature is found too. */
  function Collect(jpg: seq<byte>, ps: nat, sigLength: nat, limit: nat): (r: Result<Pieces, ReassembleError>)
    ensures r.Success? ==> ReadDatasets(jpg, ps).Success?
    ensures r.Success? && !ReadDatasets(jpg, ps).value.second ==>
      r.value == Pieces(ReadDatasets(jpg, ps).value.bytes, ps - PhotoshopExifEndDiff)
  {
    var d :- ReadDatasets(jpg, ps);
    var xmp := if d.second then SearchSig(jpg, XmpCreatorSig, limit) else None;
    if xmp.Some? then
      var w :- XmpPayload(jpg, xmp.value, sigLength, d.bytes);
      Success(Pieces(w, xmp.value - XmpExifEndDiff))
    else Success(Pieces(d.bytes, ps - PhotoshopExifEndDiff))
  }

  /** std::ranges::copy_n of the parts over the image: the image keeps its
      length and every byte outside the copied range. */
  function CopyBack(jpg: seq<byte>, p: Pieces): (r: Result<seq<byte>, ReassembleError>)
    ensures r.Success? <==> 0 <= p.at && p.at + |p.parts| <= |jpg|
    ensures r.Success? ==> |r.value| == |jpg| && r.value[..p.at] == jpg[..p.at]
    ensures r.Success? ==> r.value[p.at..p.at + |p.parts|] == p.parts
    ensures r.Success? ==> r.value[p.at + |p.parts|..] == jpg[p.at + |p.parts|..]
  {
    if p.at < 0 || p.at + |p.parts| > |jpg| then Failure(CopyOutOfRange)
    else
      var r := jpg[..p.at] + p.parts + jpg[p.at + |p.parts|..];
      assert r[p.at..p.at + |p.parts|] == p.parts;
      Success(r)
  }

  /** reassembleBlueskyData with the signature search confined to the
      first `limit` bytes. Without the APP13 signature the image is left
      as it is. */
  function ReassembleWithin(jpg: seq<byte>, sigLength: nat, limit: nat): (r: Result<seq<byte>, ReassembleError>)
    ensures SearchSig(jpg, PhotoshopSig, limit).None? ==> r == Success(jpg)
    ensures r.Success? ==> |r.value| == |jpg|
  {
    match SearchSig(jpg, PhotoshopSig, limit)
    case None => Success(jpg)
    case Some(ps) =>
      var pieces :- Collect(jpg, ps, sigLength, limit);
      CopyBack(jpg, pieces)
  }

  /** ReadDatasets over a segment with one dataset, in terms of the
      reads it makes. */
  lemma ReadOneDataset(v: seq<byte>, sig: nat, size: nat, one: seq<byte>)
    requires sig >= SegmentSizeIndexDiff && size <= DatasetMaxSize
    requires Field16(v, sig - SegmentSizeIndexDiff) == Success(size)
    requires ReadDataset(v, sig + FirstSizeIndexDiff) == Success(one)
    ensures ReadDatasets(v, sig) == Success(Datasets(one, false))
  {
  }

  /** ReadDatasets over a segment with two datasets. */
  lemma ReadTwoDatasets(v: seq<byte>, sig: nat, size: nat, one: seq<byte>, two: seq<byte>)
    requires sig >= SegmentSizeIndexDiff && size > DatasetMaxSize
    requires Field16(v, sig - SegmentSizeIndexDiff) == Success(size)
    requires ReadDataset(v, sig + FirstSizeIndexDiff) == Success(one)
    requires ReadDataset(v, sig + FirstSizeIndexDiff + FileIndexDiff + |one| + SecondSizeIndexDiff) == Success(two)
    ensures ReadDatasets(v, sig) == Success(Datasets(one + two, true))
  {
  }

  /** The fields reassembly reads from an APP13 segment `q` holding
      `rest`: the first dataset's size at 0x21 and its bytes from 35 on,
      and, past 32767 bytes, the second dataset's size and bytes behind
      its 3-byte marker. */
  predicate DatasetFields(q: seq<byte>, rest: seq<byte>)
  {
    var first := Min(FirstDatasetLimit, |rest|);
    35 + first <= |q| &&
    BE(q[FirstDatasetSizeIndex..FirstDatasetSizeIndex + 2]) == first &&
    q[35..35 + first] == rest[..first] &&
    (|rest| > FirstDatasetLimit ==>
      var last := Min(LastDatasetLimit, |rest| - FirstDatasetLimit);
      var sizeAt := 35 + FirstDatasetLimit + 3;
      sizeAt + 2 + last <= |q| &&
      BE(q[sizeAt..sizeAt + 2]) == last &&
      q[sizeAt + 2..sizeAt + 2 + last] == rest[FirstDatasetLimit..FirstDatasetLimit + last])
  }

  /** The builder's APP13 segment has the dataset fields of its bytes. */
  lemma PartDatasetFields(t: Templates, rest: seq<byte>)
    requires t.Valid() && |rest| > 0
    ensures DatasetFields(PhotoshopPart(t, rest), rest)
  {
    PhotoshopFirstDataset(t, rest);
    if |rest| > FirstDatasetLimit {
      PhotoshopSecondDataset(t, rest);
    }
  }

  /** Changes before byte 30 leave the dataset fields alone. */
  lemma DatasetFieldsKept(q: seq<byte>, p: seq<byte>, rest: seq<byte>)
    requires |q| == |p| && 30 <= |p| && q[30..] == p[30..] && DatasetFields(p, rest)
    ensures DatasetFields(q, rest)
  {
    var first := Min(FirstDatasetLimit, |rest|);
    SliceOfSuffix(q, p, 30, 33, 35);
    SliceOfSuffix(q, p, 30, 35, 35 + first);
    if |rest| > FirstDatasetLimit {
      var last := Min(LastDatasetLimit, |rest| - FirstDatasetLimit);
      var sizeAt := 35 + FirstDatasetLimit + 3;
      SliceOfSuffix(q, p, 30, sizeAt, sizeAt + 2);
      SliceOfSuffix(q, p, 30, sizeAt + 2, sizeAt + 2 + last);
    }
  }

  /** The first dataset of an APP13 segment at `at` reads back as the
      first 32767 bytes of `rest` at most. */
  lemma FirstDatasetAt(v: seq<byte>, at: nat, q: seq<byte>, rest: seq<byte>)
    requires DatasetFields(q, rest)
    requires at + |q| <= |v| && v[at..at + |q|] == q
    ensures ReadDataset(v, at + 33) == Success(rest[..Min(FirstDatasetLimit, |rest|)])
  {
    var first := Min(FirstDatasetLimit, |rest|);
    SliceWithin(v, at, q, 33, 35);
    SliceWithin(v, at, q, 35, 35 + first);
  }

  /** The second dataset of an APP13 segment at `at` reads back as the
      next 32730 bytes of `rest` at most. */
  lemma SecondDatasetAt(v: seq<byte>, at: nat, q: seq<byte>, rest: seq<byte>)
    requires |rest| > FirstDatasetLimit && DatasetFields(q, rest)
    requires at + |q| <= |v| && v[at..at + |q|] == q
    ensures var last := Min(LastDatasetLimit, |rest| - FirstDatasetLimit);
      ReadDataset(v, at + 35 + FirstDatasetLimit + 3) == Success(rest[FirstDatasetLimit..FirstDatasetLimit + last])
  {
    var last := Min(LastDatasetLimit, |rest| - FirstDatasetLimit);
    var sizeAt := 35 + FirstDatasetLimit + 3;
    assert sizeAt + 2 + last <= |q| && BE(q[sizeAt..sizeAt + 2]) == last;
    assert q[sizeAt + 2..sizeAt + 2 + last] == rest[FirstDatasetLimit..FirstDatasetLimit + last];
    SliceWithin(v, at, q, sizeAt, sizeAt + 2);
    SliceWithin(v, at, q, sizeAt + 2, sizeAt + 2 + last);
    var i := at + sizeAt;
    assert BE(v[i..i + 2]) == last;
    assert v[i + 2..i + 2 + last] == rest[FirstDatasetLimit..FirstDatasetLimit + last];
  }

  /** An APP13 segment with the dataset fields of `rest` sits at `at`:
      reading it gives back `rest` up to the two dataset limits, with a
      second dataset exactly when its size field says so. */
  lemma DatasetsAt(v: seq<byte>, at: nat, q: seq<byte>, rest: seq<byte>)
    requires |rest| > 0 && DatasetFields(q, rest)
    requires at + |q| <= |v| && v[at..at + |q|] == q
    requires BE(q[SegmentSizeIndex..SegmentSizeIndex + 2]) > DatasetMaxSize <==> |rest| > FirstDatasetLimit
    ensures ReadDatasets(v, at + 9) ==
      Success(Datasets(rest[..Min(|rest|, FirstDatasetLimit + LastDatasetLimit)], |rest| > FirstDatasetLimit))
  {
    var size := BE(q[SegmentSizeIndex..SegmentSizeIndex + 2]);
    var first := Min(FirstDatasetLimit, |rest|);
    assert Field16(v, at + 2) == Success(size) by {
      SliceWithin(v, at, q, 2, 4);
    }
    FirstDatasetAt(v, at, q, rest);
    if |rest| <= FirstDatasetLimit {
      ReadOneDataset(v, at + 9, size, rest[..first]);
    } else {
      var last := Min(LastDatasetLimit, |rest| - FirstDatasetLimit);
      SecondDatasetAt(v, at, q, rest);
      ReadTwoDatasets(v, at + 9, size, rest[..first], rest[FirstDatasetLimit..FirstDatasetLimit + last]);
      assert rest[..first] + rest[FirstDatasetLimit..FirstDatasetLimit + last]
        == rest[..Min(|rest|, FirstDatasetLimit + LastDatasetLimit)];
    }
  }

  /** No byte of `e` is '<'. */
  predicate NoTagOpen(e: seq<byte>)
  {
    forall i :: 0 <= i < |e| ==> e[i] != Base64End
  }

  /** The base64 text never contains '<', so the search for the end of the
      text stops at the XMP footer. */
  lemma EncodeHasNoTagOpen(d: seq<byte>)
    ensures NoTagOpen(Base64.Encode(d))
  {
    Base64.EncodeAlphabet(d);
    assert Base64.CharValue(Base64End).None?;
  }

  /** The fields reassembly reads from an XMP segment `x` carrying the
      base64 text `e`: the creator signature at 305, the text from 313 on,
      and the footer's leading '<' right behind the text. */
  predicate XmpFields(x: seq<byte>, e: seq<byte>)
  {
    |x| == 313 + |e| + 92 && x[305..312] == XmpCreatorSig &&
    x[313..313 + |e|] == e && x[313 + |e|] == Base64End
  }

  /** The builder's XMP segment has the fields of its text. */
  lemma XmpPartFields(t: Templates, e: seq<byte>)
    requires t.Valid()
    ensures XmpFields(XmpPart(t, e), e)
  {
    var x := XmpPart(t, e);
    assert x[305..312] == x[4..313][301..308] == t.xmpHead[4..][301..308] == t.xmpHead[305..312];
    assert x[313 + |e|] == x[313 + |e|..][0];
  }

  /** Text free of '<' followed by a '<': the search for the end of the
      text stops right behind it. */
  lemma FindTextEnd(v: seq<byte>, begin: nat, e: seq<byte>)
    requires begin + |e| < |v| && v[begin..begin + |e|] == e && v[begin + |e|] == Base64End
    requires NoTagOpen(e)
    ensures FindByte(v, begin, Base64End) == begin + |e|
  {
    assert forall j :: begin <= j < begin + |e| ==> v[j] == v[begin..begin + |e|][j - begin];
  }

  /** XmpPayload in terms of the text it finds and what decoding makes of
      it. */
  lemma PayloadOfText(v: seq<byte>, sig: nat, sigLength: nat, begin: nat, parts: seq<byte>, e: seq<byte>, w: seq<byte>)
    requires begin == sig + sigLength + 1 && begin + |e| <= |v|
    requires FindByte(v, begin, Base64End) == begin + |e|
    requires v[begin..begin + |e|] == e
    requires Base64.AppendBase64AsBinary(e, parts) == Success(w)
    ensures XmpPayload(v, sig, sigLength, parts) == Success(w)
  {
  }

  /** The text of an XMP segment at `at` starts 313 bytes in and is
      followed by a '<'. */
  lemma XmpTextAt(v: seq<byte>, at: nat, x: seq<byte>, e: seq<byte>)
    requires XmpFields(x, e)
    requires at + |x| <= |v| && v[at..at + |x|] == x
    ensures at + 313 + |e| < |v| && v[at + 313..at + 313 + |e|] == e && v[at + 313 + |e|] == Base64End
  {
    SliceWithin(v, at, x, 313, 313 + |e|);
    assert v[at + 313 + |e|] == v[at..at + |x|][313 + |e|];
  }

  /** An XMP segment whose text `e` holds no '<' sits at `at`: the text
      after its signature is `e`, and the payload is what decoding `e`
      onto `parts` gives. */
  lemma XmpPayloadAt(v: seq<byte>, at: nat, x: seq<byte>, e: seq<byte>, parts: seq<byte>, w: seq<byte>)
    requires XmpFields(x, e) && NoTagOpen(e) && Base64.AppendBase64AsBinary(e, parts) == Success(w)
    requires at + |x| <= |v| && v[at..at + |x|] == x
    ensures XmpPayload(v, at + 305, |XmpCreatorSig|, parts) == Success(w)
  {
    XmpTextAt(v, at, x, e);
    FindTextEnd(v, at + 313, e);
    assert |XmpCreatorSig| == 7;
    PayloadOfText(v, at + 305, |XmpCreatorSig|, at + 313, parts, e, w);
  }

  /** Length of the program's Bluesky EXIF segment template: the two end
      index distances (351 and 55) place the end of the EXIF part at
      0x1D1 + 65027 only for a template of this length. */
  const TemplateLength: nat := ExifInsertIndex + 46

  /** Where the EXIF part of the payload ends, and where the segments that
      carry the rest of it begin, in an image built on the template. */
  const ExifEnd: nat := ExifInsertIndex + ExifDataLimit
  const OverflowStart: nat := TemplateLength + ExifDataLimit

  /** The image after embedding: the built segments in front of the cover
      image. */
  function Embedded(t: Templates, segment: seq<byte>, data: seq<byte>, cover: seq<byte>): (v: seq<byte>)
    requires t.Valid() && |segment| >= ExifInsertIndex && |data| <= MaxBlueskyData
    ensures |v| >= |segment| + Min(|data|, ExifDataLimit)
    ensures v[ExifInsertIndex..ExifInsertIndex + Min(|data|, ExifDataLimit)] == data[..Min(|data|, ExifDataLimit)]
  {
    var b := BuildBlueskySegments(t, segment, data).value;
    AppendSlice(b, cover, ExifInsertIndex, ExifInsertIndex + Min(|data|, ExifDataLimit));
    b + cover
  }

  /** With more than 65027 bytes, the segments after the template hold the
      rest of the payload. */
  lemma EmbeddedOverflow(t: Templates, segment: seq<byte>, data: seq<byte>, cover: seq<byte>)
    requires t.Valid() && |segment| == TemplateLength && ExifDataLimit < |data| <= MaxBlueskyData
    ensures var v := Embedded(t, segment, data, cover);
      var tail := OverflowSegments(t, data[ExifDataLimit..]).value;
      |v| == OverflowStart + |tail| + |cover| && v[OverflowStart..OverflowStart + |tail|] == tail
  {
    var tail := OverflowSegments(t, data[ExifDataLimit..]).value;
    var b := InsertSplit(segment, data, tail);
    assert (b + cover)[OverflowStart..OverflowStart + |tail|] == b[OverflowStart..];
  }

  /** With more than 65027 bytes, the template's last 46 bytes follow the
      EXIF part of the payload. */
  lemma EmbeddedTemplateTail(t: Templates, segment: seq<byte>, data: seq<byte>, cover: seq<byte>)
    requires t.Valid() && |segment| == TemplateLength && ExifDataLimit < |data| <= MaxBlueskyData
    ensures Embedded(t, segment, data, cover)[ExifEnd..OverflowStart] == segment[ExifInsertIndex..]
  {
    var b := BuildBlueskySegments(t, segment, data).value;
    AppendSlice(b, cover, ExifEnd, OverflowStart);
  }

  /** Copying the rest of the payload over the image at the end of the EXIF
      part makes the whole payload contiguous from 0x1D1. */
  lemma CopyBackRestores(v: seq<byte>, data: seq<byte>)
    requires ExifDataLimit < |data| && ExifEnd + |data| - ExifDataLimit <= |v|
    requires v[ExifInsertIndex..ExifEnd] == data[..ExifDataLimit]
    ensures var r := CopyBack(v, Pieces(data[ExifDataLimit..], ExifEnd));
      r.Success? && ExifInsertIndex + |data| <= |r.value| &&
      r.value[ExifInsertIndex..ExifInsertIndex + |data|] == data
  {
    var w := CopyBack(v, Pieces(data[ExifDataLimit..], ExifEnd)).value;
    assert w[ExifInsertIndex..ExifEnd] == w[..ExifEnd][ExifInsertIndex..] == v[..ExifEnd][ExifInsertIndex..];
    assert data == data[..ExifDataLimit] + data[ExifDataLimit..];
  }

  /** Where the builder puts the APP13 signature: right after the XMP
      segment when there is one, else right after the template. */
  function PhotoshopSigIndex(t: Templates, data: seq<byte>): (i: nat)
    requires t.Valid() && |data| > ExifDataLimit
    ensures i >= OverflowStart + 9
  {
    if |data| <= XmpThreshold then OverflowStart + 9
    else OverflowStart + |XmpPart(t, Base64.Encode(data[XmpThreshold..]))| + 9
  }

  /** Where the builder puts the XMP signature. */
  const XmpSigIndex: nat := OverflowStart + 305

  /** ReassembleWithin when no XMP segment is used, in terms of its
      searches and reads. */
  lemma ReassembleFromDatasets(v: seq<byte>, sigLength: nat, limit: nat, ps: nat, d: Datasets)
    requires SearchSig(v, PhotoshopSig, limit) == Some(ps) && ReadDatasets(v, ps) == Success(d)
    requires d.second ==> SearchSig(v, XmpCreatorSig, limit).None?
    ensures ReassembleWithin(v, sigLength, limit) == CopyBack(v, Pieces(d.bytes, ps - PhotoshopExifEndDiff))
  {
    CollectFromDatasets(v, sigLength, limit, ps, d);
  }

  lemma CollectFromDatasets(v: seq<byte>, sigLength: nat, limit: nat, ps: nat, d: Datasets)
    requires ReadDatasets(v, ps) == Success(d)
    requires d.second ==> SearchSig(v, XmpCreatorSig, limit).None?
    ensures Collect(v, ps, sigLength, limit) == Success(Pieces(d.bytes, ps - PhotoshopExifEndDiff))
  {
  }

  /** ReassembleWithin when the XMP segment is found. */
  lemma ReassembleFromXmp(v: seq<byte>, sigLength: nat, limit: nat, ps: nat, d: Datasets, xs: nat, w: seq<byte>)
    requires SearchSig(v, PhotoshopSig, limit) == Some(ps) && ReadDatasets(v, ps) == Success(d) && d.second
    requires SearchSig(v, XmpCreatorSig, limit) == Some(xs) && XmpPayload(v, xs, sigLength, d.bytes) == Success(w)
    ensures ReassembleWithin(v, sigLength, limit) == CopyBack(v, Pieces(w, xs - XmpExifEndDiff))
  {
    CollectFromXmp(v, sigLength, limit, ps, d, xs, w);
  }

  lemma CollectFromXmp(v: seq<byte>, sigLength: nat, limit: nat, ps: nat, d: Datasets, xs: nat, w: seq<byte>)
    requires ReadDatasets(v, ps) == Success(d) && d.second
    requires SearchSig(v, XmpCreatorSig, limit) == Some(xs) && XmpPayload(v, xs, sigLength, d.bytes) == Success(w)
    ensures Collect(v, ps, sigLength, limit) == Success(Pieces(w, xs - XmpExifEndDiff))
  {
  }

  /** Patching the two size fields keeps every byte from 4 to 0x1C and
      from 30 on, and the segment size field then holds the length after
      the marker. */
  lemma PatchKeeps(p: seq<byte>)
    requires 35 < |p| && |p| - 2 < 0x1_0000
    ensures var q := PatchPhotoshop(p);
      q[9..16] == p[9..16] && q[30..] == p[30..] && BE(q[SegmentSizeIndex..SegmentSizeIndex + 2]) == |p| - 2
  {
    var q := PatchPhotoshop(p);
    assert q[9..16] == p[9..16];
    assert q[30..] == p[30..];
    LemmaModUnique(|p| - 2, 0x1_0000, 0, |p| - 2);
  }

  /** The patched APP13 segment keeps its signature and dataset fields,
      and its size announces a second dataset exactly when there is one. */
  lemma PatchedPhotoshopFacts(t: Templates, rest: seq<byte>, p: seq<byte>, q: seq<byte>)
    requires t.Valid() && 0 < |rest| <= FirstDatasetLimit + LastDatasetLimit
    requires p == PhotoshopPart(t, rest) && q == PatchPhotoshop(p)
    ensures q[9..16] == PhotoshopSig && DatasetFields(q, rest)
    ensures BE(q[SegmentSizeIndex..SegmentSizeIndex + 2]) > DatasetMaxSize <==> |rest| > FirstDatasetLimit
  {
    PatchKeeps(p);
    assert p[9..16] == PhotoshopSig by {
      PhotoshopFirstDataset(t, rest);
      assert p[9..16] == p[..FirstDatasetSizeIndex][9..16];
    }
    assert DatasetFields(q, rest) by {
      PartDatasetFields(t, rest);
      DatasetFieldsKept(q, p, rest);
    }
  }

  /** An image whose EXIF part holds the first 65027 payload bytes and
      whose overflow segments `tail` start at OverflowStart. */
  predicate Laid(v: seq<byte>, data: seq<byte>, tail: seq<byte>)
    requires |data| > ExifDataLimit
  {
    OverflowStart + |tail| <= |v| &&
    v[ExifInsertIndex..ExifEnd] == data[..ExifDataLimit] &&
    v[OverflowStart..OverflowStart + |tail|] == tail
  }

  lemma EmbeddedLaid(t: Templates, segment: seq<byte>, data: seq<byte>, cover: seq<byte>)
    requires t.Valid() && |segment| == TemplateLength && ExifDataLimit < |data| <= MaxBlueskyData
    ensures Laid(Embedded(t, segment, data, cover), data, OverflowSegments(t, data[ExifDataLimit..]).value)
  {
    EmbeddedOverflow(t, segment, data, cover);
  }

  /** An APP13 segment holding `rest`, with its signature at 9 and a size
      field that announces a second dataset exactly when there is one, sits
      at `at` with no copy of its signature before it: the search finds it
      and reading it gives back `rest` up to the two dataset limits. */
  lemma FindAndRead(v: seq<byte>, q: seq<byte>, rest: seq<byte>, at: nat, limit: nat)
    requires |rest| > 0 && DatasetFields(q, rest) && q[9..16] == PhotoshopSig
    requires BE(q[SegmentSizeIndex..SegmentSizeIndex + 2]) > DatasetMaxSize <==> |rest| > FirstDatasetLimit
    requires at + |q| <= |v| && v[at..at + |q|] == q
    requires at + 9 + |PhotoshopSig| <= limit
    requires forall j :: 0 <= j < at + 9 ==> !OccursAt(v, PhotoshopSig, j)
    ensures SearchSig(v, PhotoshopSig, limit) == Some(at + 9)
    ensures ReadDatasets(v, at + 9) ==
      Success(Datasets(rest[..Min(|rest|, FirstDatasetLimit + LastDatasetLimit)], |rest| > FirstDatasetLimit))
  {
    assert SearchSig(v, PhotoshopSig, limit) == Some(at + 9) by {
      SliceWithin(v, at, q, 9, 16);
      SearchSigFinds(v, PhotoshopSig, limit, at + 9);
    }
    DatasetsAt(v, at, q, rest);
  }

  /** Reassembly of an image laid out with an APP13 segment `q` that holds
      the bytes past the EXIF part in one or two datasets, and no XMP
      segment. */
  lemma RestoreDatasets(v: seq<byte>, data: seq<byte>, q: seq<byte>, limit: nat)
    requires ExifDataLimit < |data| <= XmpThreshold
    requires var rest := data[ExifDataLimit..];
      DatasetFields(q, rest) && q[9..16] == PhotoshopSig &&
      (BE(q[SegmentSizeIndex..SegmentSizeIndex + 2]) > DatasetMaxSize <==> |rest| > FirstDatasetLimit)
    requires Laid(v, data, q)
    requires OverflowStart + 9 + |PhotoshopSig| <= limit
    requires forall j :: 0 <= j < OverflowStart + 9 ==> !OccursAt(v, PhotoshopSig, j)
    requires |data| > ExifDataLimit + FirstDatasetLimit ==> forall j :: !OccursAt(Window(v, limit), XmpCreatorSig, j)
    ensures var r := ReassembleWithin(v, |XmpCreatorSig|, limit);
      r.Success? && ExifInsertIndex + |data| <= |r.value| &&
      r.value[ExifInsertIndex..ExifInsertIndex + |data|] == data
  {
    var rest := data[ExifDataLimit..];
    var d := Datasets(rest, |rest| > FirstDatasetLimit);
    FindAndRead(v, q, rest, OverflowStart, limit);
    assert rest[..Min(|rest|, FirstDatasetLimit + LastDatasetLimit)] == rest;
    ReassembleFromDatasets(v, |XmpCreatorSig|, limit, OverflowStart + 9, d);
    CopyBackRestores(v, data);
  }

  /** Payloads of 65028 to 130524 bytes: one or two datasets, no XMP.
      Reassembly restores the payload as long as the APP13 signature lies
      inside the searched window and no copy of either signature comes
      first. */
  lemma RoundTripDatasets(t: Templates, segment: seq<byte>, data: seq<byte>, cover: seq<byte>, limit: nat)
    requires t.Valid() && |segment| == TemplateLength && ExifDataLimit < |data| <= XmpThreshold
    requires var v := Embedded(t, segment, data, cover);
      PhotoshopSigIndex(t, data) + |PhotoshopSig| <= limit &&
      (forall j :: 0 <= j < PhotoshopSigIndex(t, data) ==> !OccursAt(v, PhotoshopSig, j)) &&
      (|data| > ExifDataLimit + FirstDatasetLimit ==> forall j :: !OccursAt(Window(v, limit), XmpCreatorSig, j))
    ensures var r := ReassembleWithin(Embedded(t, segment, data, cover), |XmpCreatorSig|, limit);
      r.Success? && ExifInsertIndex + |data| <= |r.value| &&
      r.value[ExifInsertIndex..ExifInsertIndex + |data|] == data
  {
    var rest := data[ExifDataLimit..];
    var p := PhotoshopPart(t, rest);
    var q := PatchPhotoshop(p);
    EmbeddedLaid(t, segment, data, cover);
    assert OverflowSegments(t, rest).value == q;
    PatchedPhotoshopFacts(t, rest, p, q);
    RestoreDatasets(Embedded(t, segment, data, cover), data, q, limit);
  }

  /** The unpatched APP13 segment keeps the template's size field 0xFFFF,
      which announces a second dataset. */
  lemma FullPhotoshopFacts(t: Templates, rest: seq<byte>)
    requires t.Valid() && |rest| > FirstDatasetLimit
    ensures var p := PhotoshopPart(t, rest);
      p[9..16] == PhotoshopSig && BE(p[SegmentSizeIndex..SegmentSizeIndex + 2]) > DatasetMaxSize
  {
    var p := PhotoshopPart(t, rest);
    PhotoshopFirstDataset(t, rest);
    assert p[9..16] == p[..FirstDatasetSizeIndex][9..16];
    assert p[SegmentSizeIndex..SegmentSizeIndex + 2] == p[..FirstDatasetSizeIndex][SegmentSizeIndex..SegmentSizeIndex + 2];
    BE2(p[SegmentSizeIndex..SegmentSizeIndex + 2]);
  }

  /** The two segments behind the template when the XMP segment is used:
      XMP first, then the unpatched APP13 segment. */
  lemma XmpLayout(v: seq<byte>, x: seq<byte>, p: seq<byte>)
    requires OverflowStart + |x + p| <= |v| && v[OverflowStart..OverflowStart + |x + p|] == x + p
    ensures v[OverflowStart..OverflowStart + |x|] == x
    ensures v[OverflowStart + |x|..OverflowStart + |x| + |p|] == p
  {
    SliceWithin(v, OverflowStart, x + p, 0, |x|);
    SliceWithin(v, OverflowStart, x + p, |x|, |x| + |p|);
    assert (x + p)[..|x|] == x;
    assert (x + p)[|x|..|x| + |p|] == p;
  }

  /** The XMP segment at OverflowStart is the one the search finds. */
  lemma FindXmp(v: seq<byte>, x: seq<byte>, e: seq<byte>, limit: nat)
    requires XmpFields(x, e)
    requires OverflowStart + |x| <= |v| && v[OverflowStart..OverflowStart + |x|] == x
    requires XmpSigIndex + |XmpCreatorSig| <= limit
    requires forall j :: 0 <= j < XmpSigIndex ==> !OccursAt(v, XmpCreatorSig, j)
    ensures SearchSig(v, XmpCreatorSig, limit) == Some(XmpSigIndex)
  {
    SliceWithin(v, OverflowStart, x, 305, 312);
    SearchSigFinds(v, XmpCreatorSig, limit, XmpSigIndex);
  }

  /** What reassembly finds in an image laid out with an XMP segment `x`
      in front of an APP13 segment `p` holding both datasets: both
      signatures where the builder put them, the first 65497 bytes of
      `rest` in the datasets and the remainder in the XMP text `e`. */
  lemma XmpPieces(v: seq<byte>, rest: seq<byte>, x: seq<byte>, e: seq<byte>, p: seq<byte>, limit: nat)
    requires FirstDatasetLimit + LastDatasetLimit < |rest|
    requires XmpFields(x, e) && NoTagOpen(e)
    requires Base64.AppendBase64AsBinary(e, rest[..FirstDatasetLimit + LastDatasetLimit]) == Success(rest)
    requires DatasetFields(p, rest) && p[9..16] == PhotoshopSig && BE(p[SegmentSizeIndex..SegmentSizeIndex + 2]) > DatasetMaxSize
    requires OverflowStart + |x + p| <= |v| && v[OverflowStart..OverflowStart + |x + p|] == x + p
    requires OverflowStart + |x| + 9 + |PhotoshopSig| <= limit
    requires forall j :: 0 <= j < OverflowStart + |x| + 9 ==> !OccursAt(v, PhotoshopSig, j)
    requires forall j :: 0 <= j < XmpSigIndex ==> !OccursAt(v, XmpCreatorSig, j)
    ensures SearchSig(v, PhotoshopSig, limit) == Some(OverflowStart + |x| + 9)
    ensures ReadDatasets(v, OverflowStart + |x| + 9) == Success(Datasets(rest[..FirstDatasetLimit + LastDatasetLimit], true))
    ensures SearchSig(v, XmpCreatorSig, limit) == Some(XmpSigIndex)
    ensures XmpPayload(v, XmpSigIndex, |XmpCreatorSig|, rest[..FirstDatasetLimit + LastDatasetLimit]) == Success(rest)
  {
    XmpLayout(v, x, p);
    FindAndRead(v, p, rest, OverflowStart + |x|, limit);
    FindXmp(v, x, e, limit);
    XmpPayloadAt(v, OverflowStart, x, e, rest[..FirstDatasetLimit + LastDatasetLimit], rest);
  }

  /** Reassembly of an image laid out with both datasets and an XMP
      segment `x` carrying the base64 text `e` in front of the APP13
      segment `p`. */
  lemma RestoreWithXmp(v: seq<byte>, data: seq<byte>, x: seq<byte>, e: seq<byte>, p: seq<byte>, limit: nat)
    requires XmpThreshold < |data|
    requires var rest := data[ExifDataLimit..];
      XmpFields(x, e) && NoTagOpen(e) &&
      Base64.AppendBase64AsBinary(e, rest[..FirstDatasetLimit + LastDatasetLimit]) == Success(rest)
    requires var rest := data[ExifDataLimit..];
      DatasetFields(p, rest) && p[9..16] == PhotoshopSig && BE(p[SegmentSizeIndex..SegmentSizeIndex + 2]) > DatasetMaxSize
    requires Laid(v, data, x + p)
    requires OverflowStart + |x| + 9 + |PhotoshopSig| <= limit
    requires forall j :: 0 <= j < OverflowStart + |x| + 9 ==> !OccursAt(v, PhotoshopSig, j)
    requires forall j :: 0 <= j < XmpSigIndex ==> !OccursAt(v, XmpCreatorSig, j)
    ensures var r := ReassembleWithin(v, |XmpCreatorSig|, limit);
      r.Success? && ExifInsertIndex + |data| <= |r.value| &&
      r.value[ExifInsertIndex..ExifInsertIndex + |data|] == data
  {
    var rest := data[ExifDataLimit..];
    var one := rest[..FirstDatasetLimit + LastDatasetLimit];
    assert ExifEnd + |rest| <= |v| by {
      assert |rest| - |one| <= 3 * (|e| / 4) <= |e|;
    }
    assert ReassembleWithin(v, |XmpCreatorSig|, limit) == CopyBack(v, Pieces(rest, ExifEnd)) by {
      XmpPieces(v, rest, x, e, p, limit);
      ReassembleFromXmp(v, |XmpCreatorSig|, limit, OverflowStart + |x| + 9, Datasets(one, true), XmpSigIndex, rest);
    }
    CopyBackRestores(v, data);
  }

  /** What the builder lays out for payloads of more than 130524 bytes,
      in the terms RestoreWithXmp reads it. */
  lemma XmpEmbedding(t: Templates, segment: seq<byte>, data: seq<byte>, cover: seq<byte>)
    requires t.Valid() && |segment| == TemplateLength && XmpThreshold < |data| <= MaxBlueskyData
    ensures var rest := data[ExifDataLimit..];
      var e := Base64.Encode(data[XmpThreshold..]);
      var x := XmpPart(t, e);
      var p := PhotoshopPart(t, rest);
      Laid(Embedded(t, segment, data, cover), data, x + p) &&
      XmpFields(x, e) && NoTagOpen(e) &&
      Base64.AppendBase64AsBinary(e, rest[..FirstDatasetLimit + LastDatasetLimit]) == Success(rest) &&
      DatasetFields(p, rest) && p[9..16] == PhotoshopSig && BE(p[SegmentSizeIndex..SegmentSizeIndex + 2]) > DatasetMaxSize &&
      PhotoshopSigIndex(t, data) == OverflowStart + |x| + 9
  {
    var rest := data[ExifDataLimit..];
    var r3 := data[XmpThreshold..];
    var one := rest[..FirstDatasetLimit + LastDatasetLimit];
    var e := Base64.Encode(r3);
    var x := XmpPart(t, e);
    var p := PhotoshopPart(t, rest);
    assert Laid(Embedded(t, segment, data, cover), data, x + p) by {
      EmbeddedLaid(t, segment, data, cover);
      assert rest[FirstDatasetLimit + LastDatasetLimit..] == r3;
      assert OverflowSegments(t, rest).value == x + p;
    }
    assert Base64.AppendBase64AsBinary(e, one) == Success(rest) by {
      Base64.RoundTrip(r3, one);
      assert one + r3 == rest;
    }
    XmpPartFields(t, e);
    EncodeHasNoTagOpen(r3);
    PartDatasetFields(t, rest);
    FullPhotoshopFacts(t, rest);
  }

  /** Payloads of more than 130524 bytes: both datasets and the XMP
      segment. */
  lemma RoundTripXmp(t: Templates, segment: seq<byte>, data: seq<byte>, cover: seq<byte>, limit: nat)
    requires t.Valid() && |segment| == TemplateLength && XmpThreshold < |data| <= MaxBlueskyData
    requires var v := Embedded(t, segment, data, cover);
      PhotoshopSigIndex(t, data) + |PhotoshopSig| <= limit &&
      (forall j :: 0 <= j < PhotoshopSigIndex(t, data) ==> !OccursAt(v, PhotoshopSig, j)) &&
      (forall j :: 0 <= j < XmpSigIndex ==> !OccursAt(v, XmpCreatorSig, j))
    ensures var r := ReassembleWithin(Embedded(t, segment, data, cover), |XmpCreatorSig|, limit);
      r.Success? && ExifInsertIndex + |data| <= |r.value| &&
      r.value[ExifInsertIndex..ExifInsertIndex + |data|] == data
  {
    XmpEmbedding(t, segment, data, cover);
    RestoreWithXmp(Embedded(t, segment, data, cover), data, XmpPart(t, Base64.Encode(data[XmpThreshold..])),
                   Base64.Encode(data[XmpThreshold..]), PhotoshopPart(t, data[ExifDataLimit..]), limit);
  }

  /** Payloads of at most 65027 bytes live in the EXIF segment alone; with
      no APP13 signature in the window reassembly leaves the image as it is
      and the payload is already in place. */
  lemma RoundTripExif(t: Templates, segment: seq<byte>, data: seq<byte>, cover: seq<byte>, limit: nat)
    requires t.Valid() && |segment| >= ExifInsertIndex && |data| <= ExifDataLimit
    requires forall j :: !OccursAt(Window(Embedded(t, segment, data, cover), limit), PhotoshopSig, j)
    ensures var v := Embedded(t, segment, data, cover);
      var r := ReassembleWithin(v, |XmpCreatorSig|, limit);
      r == Success(v) && ExifInsertIndex + |data| <= |r.value| &&
      r.value[ExifInsertIndex..ExifInsertIndex + |data|] == data
  {
    var v := Embedded(t, segment, data, cover);
    assert SearchSig(v, PhotoshopSig, limit).None?;
    assert data[..Min(|data|, ExifDataLimit)] == data;
  }

  /** No copy of a signature that reassembly searches for comes before the
      one the builder placed (or, where the builder placed none, within the
      searched window). The payload is ciphertext, so a stray copy of a
      7-byte signature in it is possible but improbable. */
  ghost predicate NoStraySignatures(t: Templates, data: seq<byte>, v: seq<byte>, limit: nat)
    requires t.Valid()
  {
    if |data| <= ExifDataLimit then forall j :: !OccursAt(Window(v, limit), PhotoshopSig, j)
    else
      (forall j :: 0 <= j < PhotoshopSigIndex(t, data) ==> !OccursAt(v, PhotoshopSig, j)) &&
      if |data| <= XmpThreshold then
        |data| > ExifDataLimit + FirstDatasetLimit ==> forall j :: !OccursAt(Window(v, limit), XmpCreatorSig, j)
      else forall j :: 0 <= j < XmpSigIndex ==> !OccursAt(v, XmpCreatorSig, j)
  }

  /** The round trip under a search window of `limit` bytes, whenever the
      builder's APP13 signature ends inside it. */
  lemma RoundTripWithin(t: Templates, segment: seq<byte>, data: seq<byte>, cover: seq<byte>, limit: nat)
    requires t.Valid() && |segment| == TemplateLength && |data| <= MaxBlueskyData
    requires |data| > ExifDataLimit ==> PhotoshopSigIndex(t, data) + |PhotoshopSig| <= limit
    requires NoStraySignatures(t, data, Embedded(t, segment, data, cover), limit)
    ensures var r := ReassembleWithin(Embedded(t, segment, data, cover), |XmpCreatorSig|, limit);
      r.Success? && ExifInsertIndex + |data| <= |r.value| &&
      r.value[ExifInsertIndex..ExifInsertIndex + |data|] == data
  {
    if |data| <= ExifDataLimit {
      RoundTripExif(t, segment, data, cover, limit);
    } else if |data| <= XmpThreshold {
      RoundTripDatasets(t, segment, data, cover, limit);
    } else {
      RoundTripXmp(t, segment, data, cover, limit);
    }
  }

  /** Where the APP13 signature lands for the largest accepted payload:
      its last byte is byte 125587 of the image. */
  lemma PhotoshopSigIndexBound(t: Templates, data: seq<byte>)
    requires t.Valid() && ExifDataLimit < |data| <= MaxBlueskyData
    ensures PhotoshopSigIndex(t, data) + |PhotoshopSig| <= OverflowStart + XmpSegmentLimit + 16
    ensures |data| >= XmpThreshold + 44641 ==> PhotoshopSigIndex(t, data) + |PhotoshopSig| > SearchLimit
  {
    if |data| > XmpThreshold {
      var r3 := data[XmpThreshold..];
      XmpFits(t, r3);
      Base64.EncodeLength(r3);
      var k := (|r3| + 2) / 3;
      assert |r3| >= 44641 ==> k >= 14881;
    }
  }

  /** The window large enough for every accepted payload: the APP13
      signature of the largest one ends at byte 125587. */
  const CorrectedSearchLimit: nat := OverflowStart + XmpSegmentLimit + 16

  /** reassembleBlueskyData as the program has it, searching the first
      125480 bytes. */
  function ReassembleBlueskyDataAsWritten(jpg: seq<byte>, sigLength: nat): (r: Result<seq<byte>, ReassembleError>)
    ensures SearchSig(jpg, PhotoshopSig, SearchLimit).None? ==> r == Success(jpg)
    ensures r.Success? ==> |r.value| == |jpg|
  {
    ReassembleWithin(jpg, sigLength, SearchLimit)
  }

  /** reassembleBlueskyData with the window widened to 125587 bytes. */
  function ReassembleBlueskyData(jpg: seq<byte>, sigLength: nat): (r: Result<seq<byte>, ReassembleError>)
    ensures SearchSig(jpg, PhotoshopSig, CorrectedSearchLimit).None? ==> r == Success(jpg)
    ensures r.Success? ==> |r.value| == |jpg|
  {
    ReassembleWithin(jpg, sigLength, CorrectedSearchLimit)
  }

  /** Every payload the builder accepts comes back whole at 0x1D1 from the
      corrected reassembly (signature length 7, as recoverData passes). */
  lemma BlueskyRoundTrip(t: Templates, segment: seq<byte>, data: seq<byte>, cover: seq<byte>)
    requires t.Valid() && |segment| == TemplateLength && |data| <= MaxBlueskyData
    requires NoStraySignatures(t, data, Embedded(t, segment, data, cover), CorrectedSearchLimit)
    ensures var r := ReassembleBlueskyData(Embedded(t, segment, data, cover), |XmpCreatorSig|);
      r.Success? && ExifInsertIndex + |data| <= |r.value| &&
      r.value[ExifInsertIndex..ExifInsertIndex + |data|] == data
  {
    if |data| > ExifDataLimit {
      PhotoshopSigIndexBound(t, data);
    }
    RoundTripWithin(t, segment, data, cover, CorrectedSearchLimit);
  }

  /** As written, the 125480-byte window cuts off the APP13 signature of
      every payload of 175186 bytes or more (an XMP segment of 59929 bytes
      or more), so the search never reports the real segment. */
  lemma SearchMissesSegment(t: Templates, segment: seq<byte>, data: seq<byte>, cover: seq<byte>)
    requires t.Valid() && |segment| == TemplateLength && XmpThreshold + 44641 <= |data| <= MaxBlueskyData
    ensures SearchSig(Embedded(t, segment, data, cover), PhotoshopSig, SearchLimit) != Some(PhotoshopSigIndex(t, data))
  {
    PhotoshopSigIndexBound(t, data);
  }

  /** ... and with no stray copy of the signature the image is left as it
      is: behind the first 65027 payload bytes lie the template's last 46
      bytes, not the rest of the payload. */
  lemma SearchLimitTooSmall(t: Templates, segment: seq<byte>, data: seq<byte>, cover: seq<byte>)
    requires t.Valid() && |segment| == TemplateLength && XmpThreshold + 44641 <= |data| <= MaxBlueskyData
    requires NoStraySignatures(t, data, Embedded(t, segment, data, cover), SearchLimit)
    ensures var v := Embedded(t, segment, data, cover);
      ReassembleBlueskyDataAsWritten(v, |XmpCreatorSig|) == Success(v) &&
      v[ExifEnd..OverflowStart] == segment[ExifInsertIndex..]
  {
    var v := Embedded(t, segment, data, cover);
    PhotoshopSigIndexBound(t, data);
    SearchSigMisses(v, PhotoshopSig, SearchLimit, PhotoshopSigIndex(t, data));
    EmbeddedTemplateTail(t, segment, data, cover);
  }
}

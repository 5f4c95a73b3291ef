/** src/jpeg_utils.cpp: the Exif orientation reader, its mapping to a
    lossless transform, and the quality estimate taken from the luminance
    quantisation table. The libjpeg-turbo calls around them are not part
    of this model. */
module JpegUtils {
  import opened Wrappers
  import opened Bytes
  import opened BinaryIo

  // ---------------------------------------------------------------------
  // Exif orientation (TIFF 6.0 sections 2 and 8)
  // ---------------------------------------------------------------------

  const App1Sig: seq<byte> := [0xFF, 0xE1]
  const ExifSearchLimit: nat := 4096
  /** "Exif" followed by two zero bytes. */
  const ExifSig: seq<byte> := [0x45, 0x78, 0x69, 0x66, 0x00, 0x00]
  const ExifHeaderSize: nat := 6
  const TagOrientation: nat := 0x0112
  const EntrySize: nat := 12
  const TiffMagic: nat := 0x002A

  /** The 2-byte big-endian length field of the marker segment at `pos`. */
  function SegmentLength(jpg: seq<byte>, pos: nat): nat
    requires pos + 4 <= |jpg|
  {
    jpg[pos + 2] as nat * 256 + jpg[pos + 3] as nat
  }

  /** The 16-bit TIFF field at `off`, in the file's byte order. The source
      copies the bytes into a native integer and swaps them for "MM"; the
      model takes the host to be little-endian. */
  function Word(tiff: seq<byte>, le: bool, off: nat): (w: nat)
    requires off + 2 <= |tiff|
    ensures w < 0x1_0000
  {
    if le then tiff[off] as nat + 256 * tiff[off + 1] as nat
    else 256 * tiff[off] as nat + tiff[off + 1] as nat
  }

  /** The 32-bit TIFF field at `off`, in the file's byte order. */
  function DWord(tiff: seq<byte>, le: bool, off: nat): nat
    requires off + 4 <= |tiff|
  {
    if le then Word(tiff, le, off) + 0x1_0000 * Word(tiff, le, off + 2)
    else 0x1_0000 * Word(tiff, le, off) + Word(tiff, le, off + 2)
  }

  /** Where the k-th 12-byte entry of the IFD at `ifd` starts. */
  function EntryAt(ifd: nat, k: nat): nat
  {
    ifd + 2 + EntrySize * k
  }

  predicate EntryFits(tiff: seq<byte>, ifd: nat, k: nat)
  {
    EntryAt(ifd, k) + EntrySize <= |tiff|
  }

  function Tag(tiff: seq<byte>, le: bool, ifd: nat, k: nat): nat
    requires EntryFits(tiff, ifd, k)
  {
    Word(tiff, le, EntryAt(ifd, k))
  }

  /** Entry k lies in the buffer, is tagged 0x0112, and no entry from `i`
      on before it is. */
  predicate FirstOrientation(tiff: seq<byte>, le: bool, ifd: nat, i: nat, k: nat)
  {
    i <= k && EntryFits(tiff, ifd, k) && Tag(tiff, le, ifd, k) == TagOrientation &&
    forall j :: i <= j < k ==> Tag(tiff, le, ifd, j) != TagOrientation
  }

  /** The value field (offset 8) of entry k. */
  function EntryValue(tiff: seq<byte>, le: bool, ifd: nat, k: nat): nat
    requires EntryFits(tiff, ifd, k)
  {
    Word(tiff, le, EntryAt(ifd, k) + 8)
  }

  /** The entry loop of exifOrientation from entry `i` of `count`: the value
      of the first orientation entry, or none when there is none or an
      entry in front of it overruns the buffer. */
  function ScanEntries(tiff: seq<byte>, le: bool, ifd: nat, i: nat, count: nat): (r: Option<nat>)
    ensures r.Some? ==> r.value < 0x1_0000
    decreases count - i
  {
    if i >= count then None
    else if !EntryFits(tiff, ifd, i) then None
    else if Tag(tiff, le, ifd, i) == TagOrientation then Some(EntryValue(tiff, le, ifd, i))
    else ScanEntries(tiff, le, ifd, i + 1, count)
  }

  /** Stepping past an entry with another tag: the first orientation entry
      from i is the first one from i + 1. */
  lemma FirstOrientationShift(tiff: seq<byte>, le: bool, ifd: nat, i: nat, k: nat)
    requires EntryFits(tiff, ifd, i) && Tag(tiff, le, ifd, i) != TagOrientation
    ensures FirstOrientation(tiff, le, ifd, i, k) <==> FirstOrientation(tiff, le, ifd, i + 1, k)
  {
    if FirstOrientation(tiff, le, ifd, i + 1, k) {
      assert forall j :: i <= j < k ==> Tag(tiff, le, ifd, j) != TagOrientation by {
        assert forall j :: i + 1 <= j < k ==> Tag(tiff, le, ifd, j) != TagOrientation;
      }
    }
  }

  /** The entry loop returns the value of the first orientation entry
      below the count, and only that. */
  lemma {:induction false} ScanFindsFirst(tiff: seq<byte>, le: bool, ifd: nat, i: nat, count: nat)
    ensures var r := ScanEntries(tiff, le, ifd, i, count);
      r.Some? ==> exists k: nat :: k < count && FirstOrientation(tiff, le, ifd, i, k) && r.value == EntryValue(tiff, le, ifd, k)
    ensures forall k: nat :: k < count && FirstOrientation(tiff, le, ifd, i, k) ==>
      ScanEntries(tiff, le, ifd, i, count) == Some(EntryValue(tiff, le, ifd, k))
    decreases count - i
  {
    if i >= count || !EntryFits(tiff, ifd, i) {
    } else if Tag(tiff, le, ifd, i) == TagOrientation {
      assert FirstOrientation(tiff, le, ifd, i, i);
    } else {
      ScanFindsFirst(tiff, le, ifd, i + 1, count);
      forall k: nat | k < count
        ensures FirstOrientation(tiff, le, ifd, i, k) <==> FirstOrientation(tiff, le, ifd, i + 1, k)
      {
        FirstOrientationShift(tiff, le, ifd, i, k);
      }
    }
  }

  /** The TIFF part of exifOrientation: byte-order mark, magic 42, the IFD0
      offset and the entry loop. */
  function TiffOrientation(tiff: seq<byte>): (r: Option<nat>)
    ensures r.Some? ==> |tiff| >= 8 && tiff[0] == tiff[1] && (tiff[0] == 0x49 || tiff[0] == 0x4D)
    ensures r.Some? ==> var le := tiff[0] == 0x49;
      Word(tiff, le, 2) == TiffMagic && 8 <= DWord(tiff, le, 4) && DWord(tiff, le, 4) + 2 <= |tiff|
    ensures r.Some? ==> r.value < 0x1_0000
  {
    if |tiff| < 8 then None
    else if !(tiff[0] == tiff[1] && (tiff[0] == 0x49 || tiff[0] == 0x4D)) then None
    else
      var le := tiff[0] == 0x49;
      if Word(tiff, le, 2) != TiffMagic then None
      else
        var ifd := DWord(tiff, le, 4);
        if ifd < 8 || ifd >= |tiff| then None
        else if ifd + 2 > |tiff| then None
        else ScanEntries(tiff, le, ifd, 0, Word(tiff, le, ifd))
  }

  /** A zero or one in the APP1 length field makes the source build a
      payload span of close to 2^64 bytes, which is undefined behaviour;
      callers must not pass such an image. */
  predicate LengthDefined(jpg: seq<byte>)
  {
    match SearchSig(jpg, App1Sig, ExifSearchLimit)
    case None => true
    case Some(pos) => pos + 4 > |jpg| || SegmentLength(jpg, pos) >= 2 || pos + 2 + SegmentLength(jpg, pos) > |jpg|
  }

  /** The payload of the first APP1 segment in the first 4096 bytes (the
      bytes behind its length field), when the segment ends inside the
      image. */
  function App1Payload(jpg: seq<byte>): (r: Option<seq<byte>>)
    requires LengthDefined(jpg)
    ensures SearchSig(jpg, App1Sig, ExifSearchLimit).None? ==> r.None?
    ensures r.Some? ==> var pos := SearchSig(jpg, App1Sig, ExifSearchLimit).value;
      pos + 2 <= ExifSearchLimit && pos + 4 + |r.value| <= |jpg| &&
      jpg[pos] == 0xFF && jpg[pos + 1] == 0xE1 && SegmentLength(jpg, pos) == |r.value| + 2 &&
      forall j :: pos + 4 <= j < pos + 4 + |r.value| ==> r.value[j - pos - 4] == jpg[j]
  {
    match SearchSig(jpg, App1Sig, ExifSearchLimit)
    case None => None
    case Some(pos) =>
      if pos + 4 > |jpg| then None
      else
        var len := SegmentLength(jpg, pos);
        if pos + 2 + len > |jpg| then None
        else
          App1At(jpg, pos);
          Some(jpg[pos + 4..pos + 2 + len])
  }

  /** Where the search finds the APP1 marker, the marker's two bytes lie
      inside the search window. */
  lemma App1At(jpg: seq<byte>, pos: nat)
    requires SearchSig(jpg, App1Sig, ExifSearchLimit) == Some(pos)
    ensures pos + 2 <= ExifSearchLimit && pos + 2 <= |jpg| && jpg[pos] == 0xFF && jpg[pos + 1] == 0xE1
  {
    assert jpg[pos..pos + 2] == App1Sig;
    assert jpg[pos..pos + 2][0] == jpg[pos] && jpg[pos..pos + 2][1] == jpg[pos + 1];
  }

  /** exifOrientation: the orientation tag of the first APP1 segment in the
      first 4096 bytes, when that segment is an Exif block whose TIFF
      structure is well formed. */
  function ExifOrientation(jpg: seq<byte>): (r: Option<nat>)
    requires LengthDefined(jpg)
    ensures r.Some? ==> r.value < 0x1_0000
    ensures r.Some? ==> var payload := App1Payload(jpg);
      payload.Some? && |payload.value| >= ExifHeaderSize + 8 && payload.value[..ExifHeaderSize] == ExifSig
  {
    match App1Payload(jpg)
    case None => None
    case Some(payload) =>
      if |payload| < ExifHeaderSize || payload[..ExifHeaderSize] != ExifSig then None
      else TiffOrientation(payload[ExifHeaderSize..])
  }

  /** The first APP1 segment holding an Exif header followed by a TIFF
      block gives that block's orientation. */
  lemma ExifBlockRead(jpg: seq<byte>, pos: nat, tiff: seq<byte>)
    requires SearchSig(jpg, App1Sig, ExifSearchLimit) == Some(pos)
    requires pos + 4 + ExifHeaderSize + |tiff| <= |jpg| && SegmentLength(jpg, pos) == 2 + ExifHeaderSize + |tiff|
    requires jpg[pos + 4..pos + 4 + ExifHeaderSize] == ExifSig
    requires jpg[pos + 4 + ExifHeaderSize..pos + 4 + ExifHeaderSize + |tiff|] == tiff
    ensures LengthDefined(jpg) && ExifOrientation(jpg) == TiffOrientation(tiff)
  {
    LengthSound(jpg, pos);
    var payload := PayloadFound(jpg, pos, ExifHeaderSize + |tiff|);
    PayloadParts(jpg, pos + 4, payload, tiff);
    ReadsPayload(jpg, payload, tiff);
  }

  lemma PayloadParts(jpg: seq<byte>, at: nat, payload: seq<byte>, tiff: seq<byte>)
    requires at + |payload| <= |jpg| && payload == jpg[at..at + |payload|]
    requires |payload| == ExifHeaderSize + |tiff|
    requires jpg[at..at + ExifHeaderSize] == ExifSig
    requires jpg[at + ExifHeaderSize..at + |payload|] == tiff
    ensures payload[..ExifHeaderSize] == ExifSig && payload[ExifHeaderSize..] == tiff
  {
    SliceWithin(jpg, at, payload, 0, ExifHeaderSize);
    SliceWithin(jpg, at, payload, ExifHeaderSize, |payload|);
  }

  lemma LengthSound(jpg: seq<byte>, pos: nat)
    requires SearchSig(jpg, App1Sig, ExifSearchLimit) == Some(pos)
    requires pos + 4 <= |jpg| && SegmentLength(jpg, pos) >= 2
    ensures LengthDefined(jpg)
  {
  }

  lemma PayloadFound(jpg: seq<byte>, pos: nat, n: nat) returns (payload: seq<byte>)
    requires SearchSig(jpg, App1Sig, ExifSearchLimit) == Some(pos) && LengthDefined(jpg)
    requires pos + 4 + n <= |jpg| && SegmentLength(jpg, pos) == 2 + n
    ensures App1Payload(jpg) == Some(payload)
    ensures payload == jpg[pos + 4..pos + 4 + n]
  {
    payload := jpg[pos + 4..pos + 4 + n];
  }

  lemma ReadsPayload(jpg: seq<byte>, payload: seq<byte>, tiff: seq<byte>)
    requires LengthDefined(jpg) && App1Payload(jpg) == Some(payload)
    requires |payload| >= ExifHeaderSize && payload[..ExifHeaderSize] == ExifSig && payload[ExifHeaderSize..] == tiff
    ensures ExifOrientation(jpg) == TiffOrientation(tiff)
  {
  }

  /** A TIFF header with a byte-order mark, magic 42 and an IFD0 offset
      inside the block hands the entry loop its entry count. */
  lemma TiffHeaderRead(tiff: seq<byte>, le: bool, ifd: nat)
    requires |tiff| >= 8 && tiff[0] == tiff[1] && tiff[0] == (if le then 0x49 else 0x4D)
    requires Word(tiff, le, 2) == TiffMagic && DWord(tiff, le, 4) == ifd && 8 <= ifd && ifd + 2 <= |tiff|
    ensures TiffOrientation(tiff) == ScanEntries(tiff, le, ifd, 0, Word(tiff, le, ifd))
  {
  }

  /** The tjtransform operations getTransformOp chooses from. */
  datatype TransformOp = NoTransform | HFlip | VFlip | Transpose | Transverse | Rot90 | Rot180 | Rot270

  /** The Exif orientation each transform corrects (TIFF 6.0 section 8,
      Orientation): the independent reading of the table below. */
  function Corrects(op: TransformOp): nat
  {
    match op
    case NoTransform => 1
    case HFlip => 2
    case Rot180 => 3
    case VFlip => 4
    case Transpose => 5
    case Rot90 => 6
    case Transverse => 7
    case Rot270 => 8
  }

  /** getTransformOp: the transform that displays an image stored with
      orientation `o` upright; none for 1 and for values outside 1..8. */
  function GetTransformOp(o: nat): (r: TransformOp)
    ensures r == NoTransform <==> !(2 <= o <= 8)
    ensures r != NoTransform ==> Corrects(r) == o
  {
    match o
    case 2 => HFlip
    case 3 => Rot180
    case 4 => VFlip
    case 5 => Transpose
    case 6 => Rot90
    case 7 => Transverse
    case 8 => Rot270
    case _ => NoTransform
  }

  /** Every transform is chosen for exactly the orientation it corrects. */
  lemma TransformRoundTrip(op: TransformOp)
    requires op != NoTransform
    ensures GetTransformOp(Corrects(op)) == op
  {
  }

  // ---------------------------------------------------------------------
  // Quality estimate (ITU-T T.81 section B.2.4.1)
  // ---------------------------------------------------------------------

  const DefaultQuality: nat := 80
  const DqtSig: seq<byte> := [0xFF, 0xDB]
  const DqtSearchLimit: nat := 32768

  /** STD_LUMINANCE_SUMS: the sum of the 64 entries of the standard
      luminance table scaled to quality q, for q in 1..100. */
  function LuminanceSum(q: int): nat
  {
    match q
    case 0 => 0 case 1 => 16320 case 2 => 16315 case 3 => 15946 case 4 => 15277
    case 5 => 14655 case 6 => 14073 case 7 => 13623 case 8 => 13230 case 9 => 12859
    case 10 => 12560 case 11 => 12240 case 12 => 11861 case 13 => 11456 case 14 => 11081
    case 15 => 10714 case 16 => 10360 case 17 => 10027 case 18 => 9679 case 19 => 9368
    case 20 => 9056 case 21 => 8680 case 22 => 8331 case 23 => 7995 case 24 => 7668
    case 25 => 7376 case 26 => 7084 case 27 => 6823 case 28 => 6562 case 29 => 6345
    case 30 => 6125 case 31 => 5939 case 32 => 5756 case 33 => 5571 case 34 => 5421
    case 35 => 5240 case 36 => 5086 case 37 => 4976 case 38 => 4829 case 39 => 4719
    case 40 => 4616 case 41 => 4463 case 42 => 4393 case 43 => 4280 case 44 => 4166
    case 45 => 4092 case 46 => 3980 case 47 => 3909 case 48 => 3835 case 49 => 3755
    case 50 => 3688 case 51 => 3621 case 52 => 3541 case 53 => 3467 case 54 => 3396
    case 55 => 3323 case 56 => 3247 case 57 => 3170 case 58 => 3096 case 59 => 3021
    case 60 => 2952 case 61 => 2874 case 62 => 2804 case 63 => 2727 case 64 => 2657
    case 65 => 2583 case 66 => 2509 case 67 => 2437 case 68 => 2362 case 69 => 2290
    case 70 => 2211 case 71 => 2136 case 72 => 2068 case 73 => 1996 case 74 => 1915
    case 75 => 1858 case 76 => 1773 case 77 => 1692 case 78 => 1620 case 79 => 1552
    case 80 => 1477 case 81 => 1398 case 82 => 1326 case 83 => 1251 case 84 => 1179
    case 85 => 1109 case 86 => 1031 case 87 => 961 case 88 => 884 case 89 => 814
    case 90 => 736 case 91 => 667 case 92 => 592 case 93 => 518 case 94 => 441
    case 95 => 369 case 96 => 292 case 97 => 221 case 98 => 151 case 99 => 86
    case 100 => 64
    case _ => 0
  }

  /** Each table sum from quality 1 to 100 is larger than the next. */
  ghost predicate StepsDown(sums: int -> nat)
  {
    forall p, q :: 1 <= p < q <= 100 && q == p + 1 ==> sums(p) > sums(q)
  }

  /** What the nearest-quality argument relies on about the table: its
      entries for qualities 1..100 fall strictly from 16320 to 64. */
  predicate Falling(sums: int -> nat)
  {
    sums(1) == 16320 && sums(100) == 64 &&
    forall i, j :: 1 <= i < j <= 100 ==> sums(i) > sums(j)
  }

  lemma {:induction false} StepsDownOrdered(sums: int -> nat, i: nat, j: nat)
    requires StepsDown(sums) && 1 <= i < j <= 100
    ensures sums(i) > sums(j)
    decreases j - i
  {
    assert sums(i) > sums(i + 1);
    if i + 1 < j {
      StepsDownOrdered(sums, i + 1, j);
    }
  }

  lemma LuminanceStepsDown()
    ensures StepsDown(LuminanceSum)
  {
    assert forall q :: 1 <= q < 100 ==> LuminanceSum(q) > LuminanceSum(q + 1);
  }

  /** A table that falls step by step falls between any two qualities. */
  lemma StepsDownFalling(sums: int -> nat)
    requires StepsDown(sums) && sums(1) == 16320 && sums(100) == 64
    ensures Falling(sums)
  {
    forall i, j | 1 <= i < j <= 100
      ensures sums(i) > sums(j)
    {
      StepsDownOrdered(sums, i, j);
    }
  }

  lemma LuminanceSumsFalling()
    ensures Falling(LuminanceSum)
  {
    LuminanceStepsDown();
    StepsDownFalling(LuminanceSum);
  }

  /** The first quality from `q` on whose table sum does not exceed `sum`. */
  function FirstAtOrBelow(sums: int -> nat, sum: nat, q: nat): (r: Option<nat>)
    requires 1 <= q <= 100
    ensures r.Some? ==> (q <= r.value <= 100 && sum >= sums(r.value) &&
                         forall j :: q <= j < r.value ==> sum < sums(j))
    ensures r.None? ==> forall j :: q <= j <= 100 ==> sum < sums(j)
    decreases 100 - q
  {
    if sum >= sums(q) then Some(q)
    else if q == 100 then None
    else FirstAtOrBelow(sums, sum, q + 1)
  }

  /** How far the table sum for quality q is from `sum`. */
  function Distance(sums: int -> nat, sum: nat, q: nat): nat
  {
    if sums(q) >= sum then sums(q) - sum else sum - sums(q)
  }

  /** The quality whose table sum is nearest to `sum`. */
  function QualityOf(sums: int -> nat, sum: nat): (q: nat)
    ensures 1 <= q <= 100
    ensures sum <= 64 ==> q == 100
    ensures sum >= 16320 ==> q == 1
  {
    if sum <= 64 then 100
    else if sum >= 16320 then 1
    else
      match FirstAtOrBelow(sums, sum, 1)
      case None => 100
      case Some(q) =>
        if q > 1 && sums(q - 1) - sum < sum - sums(q) then q - 1 else q
  }

  /** The estimate is the quality whose table sum is closest to `sum`; of
      two equally close ones it is the higher quality. */
  lemma QualityIsNearest(sums: int -> nat, sum: nat)
    requires Falling(sums)
    ensures forall q :: 1 <= q <= 100 ==> Distance(sums, sum, QualityOf(sums, sum)) <= Distance(sums, sum, q)
    ensures forall q :: QualityOf(sums, sum) < q <= 100 ==> Distance(sums, sum, QualityOf(sums, sum)) < Distance(sums, sum, q)
  {
    var r := QualityOf(sums, sum);
    QualityBracketed(sums, sum);
    BracketedIsNearest(sums, sum, r);
  }

  /** `r` is at or below `sum` with the sum above it (if any) no nearer,
      or `r` is above `sum` and strictly nearer than the sum below it. */
  predicate Bracketed(sums: int -> nat, sum: nat, r: nat)
  {
    1 <= r <= 100 &&
    ((sum >= sums(r) && (r > 1 ==> sum < sums(r - 1) && sum - sums(r) <= sums(r - 1) - sum)) ||
     (sum < sums(r) && (r < 100 ==> sum >= sums(r + 1) && sums(r) - sum < sum - sums(r + 1))))
  }

  lemma QualityBracketed(sums: int -> nat, sum: nat)
    requires Falling(sums)
    ensures Bracketed(sums, sum, QualityOf(sums, sum))
  {
    if sum <= 64 {
      assert QualityOf(sums, sum) == 100;
      assert sums(99) > sums(100);
    } else if sum >= 16320 {
      assert QualityOf(sums, sum) == 1;
    } else {
      var first := FirstAtOrBelow(sums, sum, 1);
      assert first.Some? && first.value >= 2;
      InsideBracketed(sums, sum, first.value);
    }
  }

  lemma InsideBracketed(sums: int -> nat, sum: nat, q: nat)
    requires Falling(sums) && 64 < sum < 16320 && 2 <= q <= 100
    requires FirstAtOrBelow(sums, sum, 1) == Some(q)
    ensures Bracketed(sums, sum, QualityOf(sums, sum))
  {
    assert sum < sums(q - 1) && sum >= sums(q);
    if sums(q - 1) - sum < sum - sums(q) {
      assert QualityOf(sums, sum) == q - 1;
      assert Bracketed(sums, sum, q - 1);
    } else {
      assert QualityOf(sums, sum) == q;
      assert Bracketed(sums, sum, q);
    }
  }

  lemma BracketedIsNearest(sums: int -> nat, sum: nat, r: nat)
    requires Falling(sums) && Bracketed(sums, sum, r)
    ensures forall q :: 1 <= q <= 100 ==> Distance(sums, sum, r) <= Distance(sums, sum, q)
    ensures forall q :: r < q <= 100 ==> Distance(sums, sum, r) < Distance(sums, sum, q)
  {
    forall q | 1 <= q <= 100
      ensures Distance(sums, sum, r) <= Distance(sums, sum, q)
      ensures r < q ==> Distance(sums, sum, r) < Distance(sums, sum, q)
    {
      if q < r - 1 {
        assert sums(q) > sums(r - 1);
      } else if q > r + 1 {
        assert sums(q) < sums(r + 1);
      }
    }
  }

  /** Entry i of a quantisation table at `at`: one byte, or two big-endian
      bytes for 16-bit precision. */
  function TableEntry(jpg: seq<byte>, at: nat, eightBit: bool, i: nat): nat
    requires at + (if eightBit then i + 1 else 2 * i + 2) <= |jpg|
  {
    if eightBit then jpg[at + i] as nat else jpg[at + 2 * i] as nat * 256 + jpg[at + 2 * i + 1] as nat
  }

  /** The sum of the first n entries of the table at `at`. */
  function TableSum(jpg: seq<byte>, at: nat, eightBit: bool, n: nat): (s: nat)
    requires at + (if eightBit then n else 2 * n) <= |jpg|
    ensures s <= n * (if eightBit then 255 else 0xFFFF)
  {
    if n == 0 then 0 else TableSum(jpg, at, eightBit, n - 1) + TableEntry(jpg, at, eightBit, n - 1)
  }

  /** The table loop of estimateImageQuality from `p` to the segment end:
      the entry sum of the first table with id 0, or none when a table
      header announces more bytes than the segment has left first. */
  function TableZeroSum(jpg: seq<byte>, p: nat, end: nat): (r: Option<nat>)
    requires end <= |jpg|
    decreases end - p
  {
    if p >= end then None
    else
      var precision := (jpg[p] >> 4) & 0x0F;
      var id := jpg[p] & 0x0F;
      var size := if precision == 0 then 64 else 128;
      if p + 1 + size > end then None
      else if id == 0 then Some(TableSum(jpg, p + 1, precision == 0, 64))
      else TableZeroSum(jpg, p + 1 + size, end)
  }

  /** The entry sum estimateImageQuality works from: that of the first
      table with id 0 in the first DQT segment within the first 32768
      bytes, when that segment fits in the image. */
  function LuminanceTableSum(jpg: seq<byte>): (r: Option<nat>)
    ensures SearchSig(jpg, DqtSig, DqtSearchLimit).None? ==> r.None?
  {
    match SearchSig(jpg, DqtSig, DqtSearchLimit)
    case None => None
    case Some(pos) =>
      if pos + 4 > |jpg| then None
      else
        var end := pos + 2 + SegmentLength(jpg, pos);
        if end > |jpg| then None
        else TableZeroSum(jpg, pos + 4, end)
  }

  /** estimateImageQuality: the quality nearest to the luminance table's
      sum, or 80 when there is none. */
  function EstimateImageQuality(jpg: seq<byte>): (r: nat)
    ensures 1 <= r <= 100
    ensures SearchSig(jpg, DqtSig, DqtSearchLimit).None? ==> r == DefaultQuality
  {
    match LuminanceTableSum(jpg)
    case None => DefaultQuality
    case Some(sum) => QualityOf(LuminanceSum, sum)
  }

  /** A DQT segment whose first table is an 8-bit table 0 gives the quality
      nearest to that table's sum. */
  lemma EstimateReadsLuminance(jpg: seq<byte>, pos: nat)
    requires SearchSig(jpg, DqtSig, DqtSearchLimit) == Some(pos)
    requires pos + 5 + 64 <= |jpg| && pos + 2 + SegmentLength(jpg, pos) <= |jpg|
    requires SegmentLength(jpg, pos) >= 2 + 1 + 64 && jpg[pos + 4] == 0x00
    ensures LuminanceTableSum(jpg) == Some(TableSum(jpg, pos + 5, true, 64))
  {
    var end := pos + 2 + SegmentLength(jpg, pos);
    assert TableZeroSum(jpg, pos + 4, end) == Some(TableSum(jpg, pos + 5, true, 64)) by {
      assert (jpg[pos + 4] >> 4) & 0x0F == 0 && jpg[pos + 4] & 0x0F == 0;
    }
  }

  /** Tables with another id are stepped over whole. */
  lemma OtherTablesSkipped(jpg: seq<byte>, p: nat, end: nat)
    requires end <= |jpg| && p < end && jpg[p] & 0x0F != 0
    requires p + 1 + (if (jpg[p] >> 4) & 0x0F == 0 then 64 else 128) <= end
    ensures TableZeroSum(jpg, p, end) == TableZeroSum(jpg, p + 1 + (if (jpg[p] >> 4) & 0x0F == 0 then 64 else 128), end)
  {
  }
}

/** src/jdvin/deflateFile.cpp: the choice of zlib compression level from
    the size of the data file and whether its type is already compressed.
    The size is first narrowed to `uint32_t`. */
module DeflateLevel {

  /** The zlib levels the cascade picks from. */
  datatype Level = NoCompression | BestSpeed | DefaultCompression | BestCompression

  /** The value zlib.h gives each level. */
  function ZlibValue(l: Level): int
  {
    match l
    case NoCompression => 0
    case BestSpeed => 1
    case DefaultCompression => -1
    case BestCompression => 9
  }

  /** How hard zlib works at each level (Z_DEFAULT_COMPRESSION is level 6). */
  function Effort(l: Level): nat
  {
    match l
    case NoCompression => 0
    case BestSpeed => 1
    case DefaultCompression => 6
    case BestCompression => 9
  }

  const MiB: nat := 1024 * 1024
  const FirstSizeOption: nat := 5 * MiB
  const SecondSizeOption: nat := 100 * MiB
  const ThirdSizeOption: nat := 200 * MiB
  const FourthSizeOption: nat := 450 * MiB
  const FifthSizeOption: nat := 800 * MiB

  /** `static_cast<uint32_t>(vec.size())`. */
  function Truncate32(size: nat): (t: nat)
    ensures t < 0x1_0000_0000
    ensures size < 0x1_0000_0000 ==> t == size
  {
    size % 0x1_0000_0000
  }

  /** The level deflateFile passes to deflateInit. */
  function ChooseLevel(size: nat, isCompressedFile: bool): (l: Level)
  {
    var v := Truncate32(size);
    if FirstSizeOption > v && isCompressedFile then NoCompression
    else if SecondSizeOption > v && isCompressedFile then BestSpeed
    else if isCompressedFile || v > FifthSizeOption then NoCompression
    else if v > FourthSizeOption then BestSpeed
    else if v > ThirdSizeOption then DefaultCompression
    else BestCompression
  }

  /** An already-compressed type is never given more than the fastest
      level, and is compressed at all exactly in the 5..100 MiB band. */
  lemma CompressedNeverWorksHard(size: nat)
    ensures Effort(ChooseLevel(size, true)) <= Effort(BestSpeed)
    ensures ChooseLevel(size, true) != NoCompression <==> FirstSizeOption <= Truncate32(size) < SecondSizeOption
  {
  }

  /** For other types a larger file is never compressed harder than a
      smaller one. */
  lemma {:induction false} EffortFallsWithSize(a: nat, b: nat)
    requires a <= b < 0x1_0000_0000
    ensures Effort(ChooseLevel(b, false)) <= Effort(ChooseLevel(a, false))
  {
    assert Truncate32(a) == a && Truncate32(b) == b;
  }

  /** Any other type is stored uncompressed exactly when its narrowed
      size is over 800 MiB, and gets the best level exactly up to 200 MiB. */
  lemma OtherStoredOnlyWhenHuge(size: nat)
    ensures ChooseLevel(size, false) == NoCompression <==> Truncate32(size) > FifthSizeOption
    ensures ChooseLevel(size, false) == BestCompression <==> Truncate32(size) <= ThirdSizeOption
  {
  }

  /** The level depends on the size only through its low 32 bits: a file
      4 GiB larger is treated as the smaller one. */
  lemma SizeSeenModulo32Bits(size: nat, isCompressedFile: bool)
    ensures ChooseLevel(size + 0x1_0000_0000, isCompressedFile) == ChooseLevel(size, isCompressedFile)
  {
    assert Truncate32(size + 0x1_0000_0000) == Truncate32(size);
  }
}

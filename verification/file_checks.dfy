/** src/fileChecks.cpp: the pure validation rules of the older jdvin/jdvout
    front end. File sizes arrive as `uintmax_t` values (64 bits). */
module FileChecks {
  import opened Wrappers
  import FileUtils

  /** An unsigned 64-bit value (`uintmax_t`). */
  type U64 = x: nat | x < 0x1_0000_0000_0000_0000

  const TwoTo64: nat := 0x1_0000_0000_0000_0000

  datatype ArgMode = Conceal | Recover
  datatype ArgOption = NoOption | Bluesky | Reddit

  // ---------------------------------------------------------------------
  // Predicates
  // ---------------------------------------------------------------------

  /** The extensions whose content is taken to be compressed already. */
  const CompressedExtensions: seq<seq<char>> :=
    [".zip", ".jar", ".rar", ".7z", ".bz2", ".gz", ".xz", ".tar",
     ".lz", ".lz4", ".cab", ".rpm", ".deb", ".mp4", ".mp3", ".exe",
     ".jpg", ".jpeg", ".jfif", ".png", ".webp", ".bmp", ".gif", ".ogg", ".flac"]

  /** isCompressedFile: exact, case-sensitive membership. */
  predicate IsCompressedFile(ext: seq<char>)
  {
    ext in CompressedExtensions
  }

  /** A character hasValidFilename accepts anywhere in a path: ASCII
      letters and digits, the two separators and . - _ @ %. */
  predicate PathChar(c: char)
  {
    FileUtils.IsAsciiAlnum(c) || c == '.' || c == '/' || c == '\\' || c == '-' || c == '_' || c == '@' || c == '%'
  }

  /** hasValidFilename: every character of the whole path is accepted. */
  predicate HasValidFilename(s: seq<char>)
  {
    forall j :: 0 <= j < |s| ==> PathChar(s[j])
  }

  const ImageExtensions: seq<seq<char>> := [".jpg", ".jpeg", ".jfif"]

  /** hasValidImageExtension: exact, case-sensitive membership. */
  predicate HasValidImageExtension(ext: seq<char>)
  {
    ext in ImageExtensions
  }

  // ---------------------------------------------------------------------
  // validateImageFile / validateDataFile
  // ---------------------------------------------------------------------

  const MinimumImageSize: nat := 134
  const MaxImageSizeBluesky: nat := 800 * 1024
  const MaxSizeRecover: nat := 3 * 1024 * 1024 * 1024
  const MaxDataSizeBluesky: nat := 5 * 1024 * 1024
  const MaxSizeConceal: nat := 2 * 1024 * 1024 * 1024
  const MaxSizeReddit: nat := 20 * 1024 * 1024

  datatype ImageError =
    | UnsupportedCharacters
    | InvalidImageExtension
    | InvalidImageSize
    | BlueskyImageTooLarge
    | RecoverImageTooLarge

  datatype DataError =
    | EmptyDataFile
    | BlueskyDataTooLarge
    | RedditTooLarge
    | ConcealTooLarge

  /** validateImageFile: None when the image passes, otherwise the error of
      the first rule it breaks. */
  function ValidateImageFile(imageFile: seq<char>, mode: ArgMode, platform: ArgOption, imageSize: U64): (r: Option<ImageError>)
    ensures r.None? <==>
      && HasValidFilename(imageFile)
      && HasValidImageExtension(FileUtils.Extension(imageFile))
      && MinimumImageSize <= imageSize
      && (platform == Bluesky ==> imageSize <= MaxImageSizeBluesky)
      && (mode == Recover ==> imageSize <= MaxSizeRecover)
  {
    if !HasValidFilename(imageFile) then Some(UnsupportedCharacters)
    else if !HasValidImageExtension(FileUtils.Extension(imageFile)) then Some(InvalidImageExtension)
    else if MinimumImageSize > imageSize then Some(InvalidImageSize)
    else if platform == Bluesky && imageSize > MaxImageSizeBluesky then Some(BlueskyImageTooLarge)
    else if mode == Recover && imageSize > MaxSizeRecover then Some(RecoverImageTooLarge)
    else None
  }

  /** The `uintmax_t` sum of the two sizes, which wraps at 2^64. */
  function CombinedSize(dataSize: U64, imageSize: U64): (c: U64)
    ensures c == dataSize + imageSize || c == dataSize + imageSize - TwoTo64
  {
    (dataSize + imageSize) % TwoTo64
  }

  /** validateDataFile: None when the data file passes, otherwise the
      error of the first rule it breaks. */
  function ValidateDataFile(platform: ArgOption, imageSize: U64, dataSize: U64): (r: Option<DataError>)
    ensures r.None? <==>
      && dataSize != 0
      && (platform == Bluesky ==> dataSize <= MaxDataSizeBluesky)
      && (platform == Reddit ==> CombinedSize(dataSize, imageSize) <= MaxSizeReddit)
      && (platform == NoOption ==> CombinedSize(dataSize, imageSize) <= MaxSizeConceal)
  {
    var combined := CombinedSize(dataSize, imageSize);
    if dataSize == 0 then Some(EmptyDataFile)
    else if platform == Bluesky && dataSize > MaxDataSizeBluesky then Some(BlueskyDataTooLarge)
    else if platform == Reddit && combined > MaxSizeReddit then Some(RedditTooLarge)
    else if platform == NoOption && combined > MaxSizeConceal then Some(ConcealTooLarge)
    else None
  }

  // ---------------------------------------------------------------------
  // The rules as ordered check lists
  // ---------------------------------------------------------------------

  function ImageChecks(imageFile: seq<char>, mode: ArgMode, platform: ArgOption, imageSize: U64): seq<FileUtils.Check<ImageError>>
  {
    [ FileUtils.Check(HasValidFilename(imageFile), UnsupportedCharacters),
      FileUtils.Check(HasValidImageExtension(FileUtils.Extension(imageFile)), InvalidImageExtension),
      FileUtils.Check(imageSize >= MinimumImageSize, InvalidImageSize),
      FileUtils.Check(platform != Bluesky || imageSize <= MaxImageSizeBluesky, BlueskyImageTooLarge),
      FileUtils.Check(mode != Recover || imageSize <= MaxSizeRecover, RecoverImageTooLarge) ]
  }

  function DataChecks(platform: ArgOption, imageSize: U64, dataSize: U64): seq<FileUtils.Check<DataError>>
  {
    var combined := CombinedSize(dataSize, imageSize);
    [ FileUtils.Check(dataSize != 0, EmptyDataFile),
      FileUtils.Check(platform != Bluesky || dataSize <= MaxDataSizeBluesky, BlueskyDataTooLarge),
      FileUtils.Check(platform != Reddit || combined <= MaxSizeReddit, RedditTooLarge),
      FileUtils.Check(platform != NoOption || combined <= MaxSizeConceal, ConcealTooLarge) ]
  }

  /** validateImageFile reports the first of its rules that fails, in the
      source's order. */
  lemma ImageChecksInOrder(imageFile: seq<char>, mode: ArgMode, platform: ArgOption, imageSize: U64)
    ensures ValidateImageFile(imageFile, mode, platform, imageSize) == FileUtils.FirstFailure(ImageChecks(imageFile, mode, platform, imageSize), 0)
  {
    var cs := ImageChecks(imageFile, mode, platform, imageSize);
    assert FileUtils.FirstFailure(cs, 0) == if !cs[0].passes then Some(cs[0].error) else FileUtils.FirstFailure(cs, 1);
    assert FileUtils.FirstFailure(cs, 1) == if !cs[1].passes then Some(cs[1].error) else FileUtils.FirstFailure(cs, 2);
    assert FileUtils.FirstFailure(cs, 2) == if !cs[2].passes then Some(cs[2].error) else FileUtils.FirstFailure(cs, 3);
    assert FileUtils.FirstFailure(cs, 3) == if !cs[3].passes then Some(cs[3].error) else FileUtils.FirstFailure(cs, 4);
    assert FileUtils.FirstFailure(cs, 4) == if !cs[4].passes then Some(cs[4].error) else FileUtils.FirstFailure(cs, 5);
    assert FileUtils.FirstFailure(cs, 5) == None;
  }

  /** validateDataFile reports the first of its rules that fails, in the
      source's order. */
  lemma DataChecksInOrder(platform: ArgOption, imageSize: U64, dataSize: U64)
    ensures ValidateDataFile(platform, imageSize, dataSize) == FileUtils.FirstFailure(DataChecks(platform, imageSize, dataSize), 0)
  {
    var cs := DataChecks(platform, imageSize, dataSize);
    assert FileUtils.FirstFailure(cs, 0) == if !cs[0].passes then Some(cs[0].error) else FileUtils.FirstFailure(cs, 1);
    assert FileUtils.FirstFailure(cs, 1) == if !cs[1].passes then Some(cs[1].error) else FileUtils.FirstFailure(cs, 2);
    assert FileUtils.FirstFailure(cs, 2) == if !cs[2].passes then Some(cs[2].error) else FileUtils.FirstFailure(cs, 3);
    assert FileUtils.FirstFailure(cs, 3) == if !cs[3].passes then Some(cs[3].error) else FileUtils.FirstFailure(cs, 4);
    assert FileUtils.FirstFailure(cs, 4) == None;
  }

  // ---------------------------------------------------------------------
  // Properties
  // ---------------------------------------------------------------------

  /** Each size limit belongs to its own platform: away from Bluesky the
      image is judged as with no option at all. */
  lemma ImageLimitIsBlueskyOnly(imageFile: seq<char>, mode: ArgMode, platform: ArgOption, imageSize: U64)
    requires platform != Bluesky
    ensures ValidateImageFile(imageFile, mode, platform, imageSize) == ValidateImageFile(imageFile, mode, NoOption, imageSize)
  {
  }

  /** For Bluesky only the data size counts: the combined size is never
      looked at, whatever the image weighs. */
  lemma BlueskyIgnoresImageSize(imageSize: U64, otherImageSize: U64, dataSize: U64)
    ensures ValidateDataFile(Bluesky, imageSize, dataSize) == ValidateDataFile(Bluesky, otherImageSize, dataSize)
  {
  }

  /** With sizes a real file can have (below 2^63 each) the sum does not
      wrap. */
  lemma CombinedSizeExact(dataSize: U64, imageSize: U64)
    requires dataSize < TwoTo64 / 2 && imageSize < TwoTo64 / 2
    ensures CombinedSize(dataSize, imageSize) == dataSize + imageSize
  {
  }

  /** Every image extension hasValidImageExtension accepts is also one
      isCompressedFile reports as compressed. */
  lemma ImageExtensionsAreCompressed(ext: seq<char>)
    requires HasValidImageExtension(ext)
    ensures IsCompressedFile(ext)
  {
    assert ImageExtensions[0] == CompressedExtensions[16];
    assert ImageExtensions[1] == CompressedExtensions[17];
    assert ImageExtensions[2] == CompressedExtensions[18];
  }

  /** The compressed extensions are all lower case, so the test is case
      sensitive: an extension with a capital letter is never compressed. */
  lemma CompressedIsCaseSensitive(ext: seq<char>)
    requires exists j :: 0 <= j < |ext| && 'A' <= ext[j] <= 'Z'
    ensures !IsCompressedFile(ext)
  {
    forall k | 0 <= k < |CompressedExtensions|
      ensures FileUtils.IsLowerCase(CompressedExtensions[k])
    {
    }
  }

  /** The checked path may hold separators of either kind, while the
      filename rule of file_utils refuses them in the final component. */
  lemma SeparatorsAccepted(dir: seq<char>, name: seq<char>)
    requires HasValidFilename(dir) && HasValidFilename(name)
    ensures HasValidFilename(dir + "/" + name) && HasValidFilename(dir + "\\" + name)
  {
    assert forall j :: |dir| < j < |dir + "/" + name| ==> (dir + "/" + name)[j] == name[j - |dir| - 1];
    assert forall j :: |dir| < j < |dir + "\\" + name| ==> (dir + "\\" + name)[j] == name[j - |dir| - 1];
  }
}

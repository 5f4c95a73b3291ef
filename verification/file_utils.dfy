/** src/file_utils.cpp: filename and extension checks and the validation
    order of readFile. Paths are POSIX path strings; the filesystem is
    what readFile learns from it, passed in as values. */
module FileUtils {
  import opened Wrappers
  import opened Bytes

  // ---------------------------------------------------------------------
  // Paths (std::filesystem::path on POSIX)
  // ---------------------------------------------------------------------

  /** The index of the last `c` in `s`. */
  function LastIndexOf(s: seq<char>, c: char): (r: Option<nat>)
    ensures r.Some? ==> r.value < |s| && s[r.value] == c && forall j :: r.value < j < |s| ==> s[j] != c
    ensures r.None? ==> forall j :: 0 <= j < |s| ==> s[j] != c
  {
    LastIndexBefore(s, c, |s|)
  }

  /** The index of the last `c` among the first `n` characters. */
  function LastIndexBefore(s: seq<char>, c: char, n: nat): (r: Option<nat>)
    requires n <= |s|
    ensures r.Some? ==> r.value < n && s[r.value] == c && forall j :: r.value < j < n ==> s[j] != c
    ensures r.None? ==> forall j :: 0 <= j < n ==> s[j] != c
  {
    if n == 0 then None
    else if s[n - 1] == c then Some(n - 1)
    else LastIndexBefore(s, c, n - 1)
  }

  /** path::filename: the part after the last '/' (empty when the path
      ends with one). */
  function FileName(p: seq<char>): (f: seq<char>)
    ensures forall j :: 0 <= j < |f| ==> f[j] != '/'
    ensures |f| <= |p| && f == p[|p| - |f|..]
  {
    match LastIndexOf(p, '/')
    case None => p
    case Some(i) => p[i + 1..]
  }

  /** path::extension: from the last '.' of the filename to its end; none
      for "." and "..", and a leading '.' alone does not start one. */
  function Extension(p: seq<char>): (e: seq<char>)
    ensures |e| > 0 ==> e[0] == '.' && |e| < |FileName(p)|
    ensures |e| > 0 ==> e == FileName(p)[|FileName(p)| - |e|..]
    ensures forall j :: 1 <= j < |e| ==> e[j] != '.' && e[j] != '/'
  {
    var f := FileName(p);
    if f == "." || f == ".." then []
    else
      match LastIndexOf(f, '.')
      case Some(i) => if i > 0 then f[i..] else []
      case None => []
  }

  predicate IsAsciiAlnum(c: char)
  {
    ('0' <= c <= '9') || ('A' <= c <= 'Z') || ('a' <= c <= 'z')
  }

  /** A character file_utils accepts in a filename (std::isalnum in the
      C locale, or one of . - _ @ %). */
  predicate NameChar(c: char)
  {
    IsAsciiAlnum(c) || c == '.' || c == '-' || c == '_' || c == '@' || c == '%'
  }

  /** hasValidFilename: the final component is not empty and every one of
      its characters is accepted; directory parts are not looked at. */
  predicate HasValidFilename(p: seq<char>)
  {
    |p| > 0 && |FileName(p)| > 0 && forall j :: 0 <= j < |FileName(p)| ==> NameChar(FileName(p)[j])
  }

  /** std::tolower in the C locale. */
  function ToLower(c: char): (l: char)
    ensures 'A' <= c <= 'Z' ==> l as int == c as int + 32
    ensures !('A' <= c <= 'Z') ==> l == c
  {
    if 'A' <= c <= 'Z' then (c as int + 32) as char else c
  }

  function Lower(s: seq<char>): (r: seq<char>)
    ensures |r| == |s| && forall j :: 0 <= j < |s| ==> r[j] == ToLower(s[j])
  {
    if |s| == 0 then [] else Lower(s[..|s| - 1]) + [ToLower(s[|s| - 1])]
  }

  /** hasFileExtension: the lower-cased extension is one of `exts`. */
  predicate HasFileExtension(p: seq<char>, exts: seq<seq<char>>)
  {
    Lower(Extension(p)) in exts
  }

  /** Two strings are equal up to ASCII case. */
  predicate SameIgnoringCase(a: seq<char>, b: seq<char>)
  {
    |a| == |b| && forall j :: 0 <= j < |a| ==> ToLower(a[j]) == ToLower(b[j])
  }

  predicate IsLowerCase(s: seq<char>)
  {
    forall j :: 0 <= j < |s| ==> !('A' <= s[j] <= 'Z')
  }

  /** Against a list of lower-case extensions the test is a case-blind
      exact match, in both directions. */
  lemma ExtensionMatchIgnoresCase(p: seq<char>, exts: seq<seq<char>>)
    requires forall k :: 0 <= k < |exts| ==> IsLowerCase(exts[k])
    ensures HasFileExtension(p, exts) <==> exists k :: 0 <= k < |exts| && SameIgnoringCase(Extension(p), exts[k])
  {
    var e := Extension(p);
    if HasFileExtension(p, exts) {
      var k :| 0 <= k < |exts| && exts[k] == Lower(e);
      assert SameIgnoringCase(e, exts[k]);
    }
    if k :| 0 <= k < |exts| && SameIgnoringCase(e, exts[k]) {
      assert Lower(e) == exts[k];
    }
  }

  /** Whatever directory a name sits in, it is the name alone that is
      checked. */
  lemma DirectoryNotChecked(dir: seq<char>, name: seq<char>)
    requires forall j :: 0 <= j < |name| ==> name[j] != '/'
    ensures FileName(dir + "/" + name) == name
    ensures HasValidFilename(dir + "/" + name) <==> HasValidFilename(name)
  {
    var p := dir + "/" + name;
    assert forall j :: |dir| < j < |p| ==> p[j] == name[j - |dir| - 1];
    LastIndexUnique(p, '/', |dir|);
    assert p[|dir| + 1..] == name;
    NoSlashFileName(name);
  }

  /** A path without '/' is its own filename. */
  lemma NoSlashFileName(name: seq<char>)
    requires forall j :: 0 <= j < |name| ==> name[j] != '/'
    ensures FileName(name) == name
  {
    assert LastIndexOf(name, '/') == None;
  }

  /** The extension depends on the filename only. */
  lemma ExtensionOfFileName(p: seq<char>, q: seq<char>)
    requires FileName(p) == FileName(q)
    ensures Extension(p) == Extension(q)
  {
  }

  /** The last `c` is the one with no `c` after it. */
  lemma LastIndexUnique(s: seq<char>, c: char, i: nat)
    requires i < |s| && s[i] == c && forall j :: i < j < |s| ==> s[j] != c
    ensures LastIndexOf(s, c) == Some(i)
  {
    var r := LastIndexOf(s, c);
    assert r.Some?;
    assert !(r.value < i);
  }

  /** The last dot of stem + "." + ext, when ext has none, is the one
      added. */
  lemma LastDotAdded(stem: seq<char>, ext: seq<char>)
    requires forall j :: 0 <= j < |ext| ==> ext[j] != '.'
    ensures LastIndexOf(stem + "." + ext, '.') == Some(|stem|)
  {
    var name := stem + "." + ext;
    assert forall j :: |stem| < j < |name| ==> name[j] == ext[j - |stem| - 1];
    LastIndexUnique(name, '.', |stem|);
  }

  /** A name made of a non-empty stem, a dot and a non-empty extension without
      dots or slashes has that extension, wherever it sits. */
  lemma ExtensionOfName(dir: seq<char>, stem: seq<char>, ext: seq<char>)
    requires |stem| > 0 && |ext| > 0 && forall j :: 0 <= j < |stem| ==> stem[j] != '/'
    requires forall j :: 0 <= j < |ext| ==> ext[j] != '/' && ext[j] != '.'
    ensures Extension(dir + "/" + stem + "." + ext) == "." + ext
  {
    var name := stem + "." + ext;
    NameHasNoSlash(stem, ext);
    assert dir + "/" + stem + "." + ext == dir + "/" + name;
    DirectoryNotChecked(dir, name);
    ExtensionOfFileName(dir + "/" + name, name);
    NameExtension(stem, ext);
  }

  lemma NameHasNoSlash(stem: seq<char>, ext: seq<char>)
    requires forall j :: 0 <= j < |stem| ==> stem[j] != '/'
    requires forall j :: 0 <= j < |ext| ==> ext[j] != '/'
    ensures forall j :: 0 <= j < |stem + "." + ext| ==> (stem + "." + ext)[j] != '/'
  {
  }

  lemma NameExtension(stem: seq<char>, ext: seq<char>)
    requires |stem| > 0 && |ext| > 0 && forall j :: 0 <= j < |stem| ==> stem[j] != '/'
    requires forall j :: 0 <= j < |ext| ==> ext[j] != '/' && ext[j] != '.'
    ensures Extension(stem + "." + ext) == "." + ext
  {
    var name := stem + "." + ext;
    NameHasNoSlash(stem, ext);
    NoSlashFileName(name);
    LastDotAdded(stem, ext);
    assert |name| >= 3;
    assert name[|stem|..] == "." + ext;
  }

  // ---------------------------------------------------------------------
  // readFile
  // ---------------------------------------------------------------------

  /** The first check of a list, from the i-th on, that does not pass:
      an ordered chain of validations that throws at its first failure. */
  datatype Check<E> = Check(passes: bool, error: E)

  function FirstFailure<E>(checks: seq<Check<E>>, i: nat): Option<E>
    decreases |checks| - i
  {
    if i >= |checks| then None
    else if !checks[i].passes then Some(checks[i].error)
    else FirstFailure(checks, i + 1)
  }

  /** The failure reported is that of the first failing check, and there
      is none exactly when every check passes. */
  lemma {:induction false} FirstFailureIsFirst<E>(checks: seq<Check<E>>, i: nat)
    ensures var r := FirstFailure(checks, i);
      && (r.None? <==> forall k :: i <= k < |checks| ==> checks[k].passes)
      && (r.Some? ==> exists k :: i <= k < |checks| && !checks[k].passes && checks[k].error == r.value &&
                                  forall j :: i <= j < k ==> checks[j].passes)
    decreases |checks| - i
  {
    if i < |checks| && checks[i].passes {
      FirstFailureIsFirst(checks, i + 1);
      var r := FirstFailure(checks, i + 1);
      if r.Some? {
        var k :| i + 1 <= k < |checks| && !checks[k].passes && checks[k].error == r.value &&
                 forall j :: i + 1 <= j < k ==> checks[j].passes;
        assert forall j :: i <= j < k ==> checks[j].passes;
      }
    }
  }

  datatype FileTypeCheck = CoverImage | EmbeddedImage | DataFile

  /** What the filesystem says about a path: whether it names a regular
      file, and its size. */
  datatype Stat = Stat(regular: bool, size: nat)

  datatype ReadError =
    | InvalidName
    | NotFound
    | EmptyFile
    | InvalidImageExtension
    | InvalidImageSize
    | CoverTooLarge
    | TooLarge
    | OpenFailed
    | PartialRead

  const MinimumImageSize: nat := 134
  const MaxImageSize: nat := 8 * 1024 * 1024
  const MaxFileSize: nat := 3 * 1024 * 1024 * 1024
  const ImageExtensions: seq<seq<char>> := [".png", ".jpg", ".jpeg", ".jfif"]

  /** The checks of readFile before it opens the file, in its order. */
  function ReadChecks(path: seq<char>, kind: FileTypeCheck, stat: Option<Stat>): seq<Check<ReadError>>
  {
    var size := if stat.Some? then stat.value.size else 0;
    var image := kind == CoverImage || kind == EmbeddedImage;
    [ Check(HasValidFilename(path), InvalidName),
      Check(stat.Some? && stat.value.regular, NotFound),
      Check(size != 0, EmptyFile),
      Check(!image || HasFileExtension(path, ImageExtensions), InvalidImageExtension),
      Check(kind != CoverImage || MinimumImageSize <= size, InvalidImageSize),
      Check(kind != CoverImage || size <= MaxImageSize, CoverTooLarge),
      Check(size <= MaxFileSize, TooLarge) ]
  }

  /** readFile: `stat` is None for a missing path, `canOpen` says whether
      the stream could be opened, and `stream` is what reading it
      delivers. The buffer is the first `size` bytes read. */
  function ReadFile(path: seq<char>, kind: FileTypeCheck, stat: Option<Stat>, canOpen: bool, stream: seq<byte>): (r: Result<seq<byte>, ReadError>)
    ensures r.Success? ==> stat.Some? && stat.value.size <= |stream| && r.value == stream[..stat.value.size]
    ensures r.Success? ==> HasValidFilename(path) && stat.value.regular && 0 < stat.value.size <= MaxFileSize
    ensures r.Success? && kind != DataFile ==> HasFileExtension(path, ImageExtensions)
    ensures r.Success? && kind == CoverImage ==> MinimumImageSize <= stat.value.size <= MaxImageSize
  {
    if !HasValidFilename(path) then Failure(InvalidName)
    else if stat.None? || !stat.value.regular then Failure(NotFound)
    else
      var size := stat.value.size;
      var image := kind == CoverImage || kind == EmbeddedImage;
      if size == 0 then Failure(EmptyFile)
      else if image && !HasFileExtension(path, ImageExtensions) then Failure(InvalidImageExtension)
      else if kind == CoverImage && MinimumImageSize > size then Failure(InvalidImageSize)
      else if kind == CoverImage && size > MaxImageSize then Failure(CoverTooLarge)
      else if size > MaxFileSize then Failure(TooLarge)
      else if !canOpen then Failure(OpenFailed)
      else if |stream| < size then Failure(PartialRead)
      else Success(stream[..size])
  }

  /** readFile throws the error of the first of its checks that fails, in
      the source's order, and reads only when all of them pass. */
  lemma ReadFileChecksInOrder(path: seq<char>, kind: FileTypeCheck, stat: Option<Stat>, canOpen: bool, stream: seq<byte>)
    ensures var r := ReadFile(path, kind, stat, canOpen, stream);
      match FirstFailure(ReadChecks(path, kind, stat), 0)
      case Some(e) => r == Failure(e)
      case None => stat.Some? && (r.Success? <==> canOpen && |stream| >= stat.value.size)
  {
    var cs := ReadChecks(path, kind, stat);
    assert FirstFailure(cs, 0) == if !cs[0].passes then Some(cs[0].error) else FirstFailure(cs, 1);
    assert FirstFailure(cs, 1) == if !cs[1].passes then Some(cs[1].error) else FirstFailure(cs, 2);
    assert FirstFailure(cs, 2) == if !cs[2].passes then Some(cs[2].error) else FirstFailure(cs, 3);
    assert FirstFailure(cs, 3) == if !cs[3].passes then Some(cs[3].error) else FirstFailure(cs, 4);
    assert FirstFailure(cs, 4) == if !cs[4].passes then Some(cs[4].error) else FirstFailure(cs, 5);
    assert FirstFailure(cs, 5) == if !cs[5].passes then Some(cs[5].error) else FirstFailure(cs, 6);
    assert FirstFailure(cs, 6) == if !cs[6].passes then Some(cs[6].error) else FirstFailure(cs, 7);
    assert FirstFailure(cs, 7) == None;
  }
}

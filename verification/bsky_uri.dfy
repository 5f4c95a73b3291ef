/** The string handling of src/bsky/bsky_post.py that works on record
    addresses and file names: str.split on '/', parse_uri (an AT Protocol
    at:// URI or a bsky.app web link into repo, collection and record key)
    and get_mimetype (an image file name's MIME type). */
module BskyUri {
  import opened Wrappers

  // ---------------------------------------------------------------------
  // str.split(sep) and its inverse, sep.join
  // ---------------------------------------------------------------------

  /** Python's `s.split(sep)` for a one-character separator: the pieces
      between separators, empty ones included, and always at least one. */
  function Split(s: string, sep: char): (r: seq<string>)
    ensures |r| >= 1
    ensures forall i :: 0 <= i < |r| ==> sep !in r[i]
    decreases |s|
  {
    if |s| == 0 then [""]
    else
      var rest := Split(s[1..], sep);
      if s[0] == sep then [""] + rest
      else [[s[0]] + rest[0]] + rest[1..]
  }

  /** `sep.join(parts)`. */
  function Join(parts: seq<string>, sep: char): string
    requires |parts| >= 1
    decreases |parts|
  {
    if |parts| == 1 then parts[0] else parts[0] + [sep] + Join(parts[1..], sep)
  }

  /** Joining the pieces gives back the string. */
  lemma {:induction false} JoinSplit(s: string, sep: char)
    ensures Join(Split(s, sep), sep) == s
    decreases |s|
  {
    if |s| > 0 {
      var rest := Split(s[1..], sep);
      JoinSplit(s[1..], sep);
      if s[0] == sep {
        assert Split(s, sep)[1..] == rest;
      } else if |rest| == 1 {
        assert Split(s, sep) == [[s[0]] + rest[0]];
        assert s == [s[0]] + s[1..];
      } else {
        var r := Split(s, sep);
        assert r[1..] == rest[1..];
        calc {
          Join(r, sep);
          ([s[0]] + rest[0]) + [sep] + Join(rest[1..], sep);
          [s[0]] + (rest[0] + [sep] + Join(rest[1..], sep));
          [s[0]] + Join(rest, sep);
          [s[0]] + s[1..];
        }
        assert [s[0]] + s[1..] == s;
      }
    }
  }

  /** Splitting a piece with no separator in it, then more text. */
  lemma {:induction false} SplitPiece(a: string, sep: char, tail: string)
    requires sep !in a
    ensures Split(a + tail, sep) == [a + Split(tail, sep)[0]] + Split(tail, sep)[1..]
    decreases |a|
  {
    if |a| > 0 {
      assert (a + tail)[1..] == a[1..] + tail;
      assert (a + tail)[0] == a[0];
      SplitPiece(a[1..], sep, tail);
      assert [a[0]] + (a[1..] + Split(tail, sep)[0]) == a + Split(tail, sep)[0];
    } else {
      var r := Split(tail, sep);
      assert a + tail == tail;
      assert a + r[0] == r[0];
      assert r == [r[0]] + r[1..];
    }
  }

  /** Splitting the pieces joined back gives the pieces, when no piece holds
      the separator. */
  lemma {:induction false} SplitJoin(parts: seq<string>, sep: char)
    requires |parts| >= 1 && forall i :: 0 <= i < |parts| ==> sep !in parts[i]
    ensures Split(Join(parts, sep), sep) == parts
    decreases |parts|
  {
    if |parts| == 1 {
      SplitPiece(parts[0], sep, "");
      assert parts[0] + "" == parts[0];
    } else {
      var j := Join(parts[1..], sep);
      SplitJoin(parts[1..], sep);
      assert Split([sep] + j, sep) == [""] + parts[1..] by {
        assert ([sep] + j)[1..] == j;
      }
      SplitPiece(parts[0], sep, [sep] + j);
      assert parts[0] + [sep] + j == parts[0] + ([sep] + j);
      assert parts[0] + "" == parts[0];
      assert parts == [parts[0]] + parts[1..];
    }
  }

  // ---------------------------------------------------------------------
  // parse_uri
  // ---------------------------------------------------------------------

  /** The record address the repo.getRecord call takes. */
  datatype UriParts = UriParts(repo: string, collection: string, rkey: string)

  /** The three ValueErrors parse_uri raises. */
  datatype UriError = InvalidAtUri | InvalidBskyUrl | UnhandledUri

  const AtPrefix: string := "at://"
  const WebPrefix: string := "https://bsky.app/"

  predicate StartsWith(s: string, p: string)
  {
    |p| <= |s| && s[..|p|] == p
  }

  /** The record collection a bsky.app link's path segment names; any other
      segment stands for itself. */
  function Collection(segment: string): (c: string)
    ensures segment !in {"post", "lists", "feed"} ==> c == segment
  {
    if segment == "post" then "app.bsky.feed.post"
    else if segment == "lists" then "app.bsky.graph.list"
    else if segment == "feed" then "app.bsky.feed.generator"
    else segment
  }

  /** parse_uri: "at://repo/collection/rkey" takes pieces 2 to 4 of the
      split on '/'; "https://bsky.app/profile/repo/kind/rkey" takes pieces
      4 to 6 and maps the kind to its collection. */
  function ParseUri(uri: string): (r: Result<UriParts, UriError>)
    ensures r.Success? ==> StartsWith(uri, AtPrefix) || StartsWith(uri, WebPrefix)
    ensures r == Failure(UnhandledUri) <==> !StartsWith(uri, AtPrefix) && !StartsWith(uri, WebPrefix)
  {
    var parts := Split(uri, '/');
    if StartsWith(uri, AtPrefix) then
      if |parts| < 5 then Failure(InvalidAtUri)
      else Success(UriParts(parts[2], parts[3], parts[4]))
    else if StartsWith(uri, WebPrefix) then
      if |parts| < 7 then Failure(InvalidBskyUrl)
      else Success(UriParts(parts[4], Collection(parts[5]), parts[6]))
    else Failure(UnhandledUri)
  }

  predicate NoSlash(s: string) { '/' !in s }

  /** Pieces of a path: none holds a '/'. */
  predicate Pieces(parts: seq<string>)
  {
    forall i :: 0 <= i < |parts| ==> NoSlash(parts[i])
  }

  lemma PiecesConcat(a: seq<string>, b: seq<string>)
    requires Pieces(a) && Pieces(b)
    ensures Pieces(a + b)
  {
    assert forall i :: |a| <= i < |a + b| ==> (a + b)[i] == b[i - |a|];
  }

  /** Joined pieces start with the first piece and the separator. */
  lemma JoinHead(parts: seq<string>, sep: char)
    requires |parts| >= 2
    ensures Join(parts, sep) == parts[0] + [sep] + Join(parts[1..], sep)
  {
  }

  lemma AtPrefixed(parts: seq<string>)
    requires |parts| >= 3 && parts[0] == "at:" && parts[1] == ""
    ensures StartsWith(Join(parts, '/'), AtPrefix)
  {
    JoinHead(parts, '/');
    JoinHead(parts[1..], '/');
    assert parts[1..][1..] == parts[2..];
    var u := Join(parts, '/');
    assert u == "at:" + "/" + ("" + "/" + Join(parts[2..], '/'));
    assert u[..5] == "at:" + "/" + "/";
  }

  lemma PrefixOf(p: string, x: string)
    ensures StartsWith(p + x, p)
  {
    assert (p + x)[..|p|] == p;
  }

  lemma WebJoin(parts: seq<string>)
    requires |parts| >= 4 && parts[0] == "https:" && parts[1] == "" && parts[2] == "bsky.app"
    ensures Join(parts, '/') == WebPrefix + Join(parts[3..], '/')
  {
    JoinHead(parts, '/');
    JoinHead(parts[1..], '/');
    JoinHead(parts[2..], '/');
    assert parts[1..][1..] == parts[2..];
    assert parts[2..][1..] == parts[3..];
    var rest := Join(parts[3..], '/');
    var x, y, z := parts[0] + ['/'], parts[1] + ['/'], parts[2] + ['/'];
    assert Join(parts, '/') == x + (y + (z + rest));
    Regroup(x, y, z, rest);
    WebPrefixParts();
  }

  lemma WebPrefixParts()
    ensures ("https:" + ['/']) + ("" + ['/']) + ("bsky.app" + ['/']) == WebPrefix
  {
  }

  lemma Regroup<T>(x: seq<T>, y: seq<T>, z: seq<T>, r: seq<T>)
    ensures x + (y + (z + r)) == (x + y + z) + r
  {
  }

  lemma WebPrefixed(parts: seq<string>)
    requires |parts| >= 4 && parts[0] == "https:" && parts[1] == "" && parts[2] == "bsky.app"
    ensures StartsWith(Join(parts, '/'), WebPrefix) && !StartsWith(Join(parts, '/'), AtPrefix)
  {
    WebJoin(parts);
    var rest := Join(parts[3..], '/');
    PrefixOf(WebPrefix, rest);
    NotPrefix(WebPrefix + rest, AtPrefix);
  }

  lemma NotPrefix(u: string, p: string)
    requires |p| > 0 && |u| > 0 && u[0] != p[0]
    ensures !StartsWith(u, p)
  {
    if |p| <= |u| {
      assert u[..|p|][0] != p[0];
    }
  }

  /** An AT URI built from its three parts parses back to them, whatever
      follows the record key after a further '/'. */
  lemma AtUriRoundTrip(repo: string, collection: string, rkey: string, more: seq<string>)
    requires NoSlash(repo) && NoSlash(collection) && NoSlash(rkey)
    requires Pieces(more)
    ensures ParseUri(Join(["at:", "", repo, collection, rkey] + more, '/'))
            == Success(UriParts(repo, collection, rkey))
  {
    var parts := ["at:", "", repo, collection, rkey] + more;
    PiecesConcat(["at:", "", repo, collection, rkey], more);
    SplitJoin(parts, '/');
    AtPrefixed(parts);
  }

  /** A bsky.app link built from a profile, a kind and a record key parses
      back to them, with the kind mapped to its collection. */
  lemma WebUrlRoundTrip(repo: string, kind: string, rkey: string, more: seq<string>)
    requires NoSlash(repo) && NoSlash(kind) && NoSlash(rkey)
    requires Pieces(more)
    ensures ParseUri(Join(["https:", "", "bsky.app", "profile", repo, kind, rkey] + more, '/'))
            == Success(UriParts(repo, Collection(kind), rkey))
  {
    var parts := ["https:", "", "bsky.app", "profile", repo, kind, rkey] + more;
    PiecesConcat(["https:", "", "bsky.app", "profile", repo, kind, rkey], more);
    SplitJoin(parts, '/');
    WebPrefixed(parts);
  }

  /** An AT URI with fewer than four '/' separators, and a bsky.app link
      with fewer than six, are refused. */
  lemma ShortUrisRefused(uri: string)
    ensures StartsWith(uri, AtPrefix) && |Split(uri, '/')| < 5 ==> ParseUri(uri) == Failure(InvalidAtUri)
    ensures (!StartsWith(uri, AtPrefix) && StartsWith(uri, WebPrefix) && |Split(uri, '/')| < 7)
              ==> ParseUri(uri) == Failure(InvalidBskyUrl)
  {
  }

  // ---------------------------------------------------------------------
  // get_mimetype
  // ---------------------------------------------------------------------

  /** The last component of a '/'-separated path as pathlib sees it: empty
      components and "." are dropped. */
  function LastName(parts: seq<string>): (name: string)
    ensures name == "" || name in parts
    decreases |parts|
  {
    if |parts| == 0 then ""
    else
      var last := parts[|parts| - 1];
      if last == "" || last == "." then LastName(parts[..|parts| - 1]) else last
  }

  /** The last '.' in s, if any. */
  function LastDot(s: string): (r: Option<nat>)
    ensures r.Some? ==> r.value < |s| && s[r.value] == '.' && '.' !in s[r.value + 1..]
    ensures r.None? ==> '.' !in s
  {
    if |s| == 0 then None
    else if s[|s| - 1] == '.' then Some(|s| - 1)
    else
      var r := LastDot(s[..|s| - 1]);
      assert s == s[..|s| - 1] + [s[|s| - 1]];
      r
  }

  /** PurePath.suffix without its dot: what follows the name's last '.',
      when that dot is neither the name's first character nor its last. */
  function Extension(filename: string): (ext: string)
    ensures '.' !in ext && '/' !in ext
  {
    var name := LastName(Split(filename, '/'));
    match LastDot(name)
    case Some(i) => if 0 < i < |name| - 1 then name[i + 1..] else ""
    case None => ""
  }

  function LowerChar(c: char): char
  {
    if 'A' <= c <= 'Z' then (c as int + 32) as char else c
  }

  function Lower(s: string): (r: string)
    ensures |r| == |s| && forall i :: 0 <= i < |s| ==> r[i] == LowerChar(s[i])
  {
    seq(|s|, i requires 0 <= i < |s| => LowerChar(s[i]))
  }

  const OctetStream: string := "application/octet-stream"

  /** The MIME type of an extension already in lower case. */
  function MimeOf(ext: string): string
  {
    if ext == "png" then "image/png"
    else if ext == "jpeg" || ext == "jpg" then "image/jpeg"
    else if ext == "webp" then "image/webp"
    else if ext == "gif" then "image/gif"
    else OctetStream
  }

  function GetMimetype(filename: string): (m: string)
    ensures m in {"image/png", "image/jpeg", "image/webp", "image/gif", OctetStream}
  {
    MimeOf(Lower(Extension(filename)))
  }

  /** The name of a path whose last piece is a proper name. */
  lemma NameOfPath(dirs: seq<string>, name: string)
    requires Pieces(dirs) && NoSlash(name) && name != "" && name != "."
    ensures LastName(Split(Join(dirs + [name], '/'), '/')) == name
  {
    PiecesConcat(dirs, [name]);
    SplitJoin(dirs + [name], '/');
    assert (dirs + [name])[|dirs|] == name;
  }

  /** A file named stem.ext, in any directory, has the MIME type of its
      extension in lower case, when the stem is not empty. */
  lemma MimetypeOfName(dirs: seq<string>, stem: string, ext: string)
    requires Pieces(dirs)
    requires |stem| > 0 && NoSlash(stem) && |ext| > 0 && NoSlash(ext) && '.' !in ext
    ensures GetMimetype(Join(dirs + [stem + "." + ext], '/')) == MimeOf(Lower(ext))
  {
    var name := stem + "." + ext;
    assert NoSlash(name) by {
      assert forall j :: 0 <= j < |name| ==> name[j] == (if j < |stem| then stem[j] else if j == |stem| then '.' else ext[j - |stem| - 1]);
    }
    NameOfPath(dirs, name);
    LastDotOf(stem, ext);
    assert name[|stem| + 1..] == ext;
  }

  lemma LastDotOf(stem: string, ext: string)
    requires |ext| > 0 && '.' !in ext
    ensures LastDot(stem + "." + ext) == Some(|stem|)
  {
    var s := stem + "." + ext;
    assert s[|stem|] == '.';
    assert s[|stem| + 1..] == ext;
    assert forall j :: |stem| < j < |s| ==> s[j] == ext[j - |stem| - 1];
  }

  lemma LowerKeepsPieces(ext: string)
    requires NoSlash(ext) && '.' !in ext
    ensures NoSlash(Lower(ext)) && '.' !in Lower(ext) && |Lower(ext)| == |ext|
    ensures Lower(Lower(ext)) == Lower(ext)
  {
  }

  /** The case of the extension does not matter: "photo.PNG" is an image. */
  lemma MimetypeIgnoresCase(dirs: seq<string>, stem: string, ext: string)
    requires Pieces(dirs)
    requires |stem| > 0 && NoSlash(stem) && |ext| > 0 && NoSlash(ext) && '.' !in ext
    ensures GetMimetype(Join(dirs + [stem + "." + ext], '/'))
            == GetMimetype(Join(dirs + [stem + "." + Lower(ext)], '/'))
  {
    MimetypeOfName(dirs, stem, ext);
    LowerKeepsPieces(ext);
    MimetypeOfName(dirs, stem, Lower(ext));
  }

  /** A name with no extension, or only a leading dot ("README",
      ".profile"), is an octet stream. */
  lemma NoExtensionIsOctets(dirs: seq<string>, name: string)
    requires Pieces(dirs)
    requires |name| > 0 && NoSlash(name) && name != "." && '.' !in name[1..]
    ensures GetMimetype(Join(dirs + [name], '/')) == OctetStream
  {
    NameOfPath(dirs, name);
    assert forall j :: 1 <= j < |name| ==> name[j] == name[1..][j - 1];
  }
}

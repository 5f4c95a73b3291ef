/** The facet scanners of src/bsky/bsky_post.py: parse_mentions, parse_urls
    and parse_hashtags. Each runs a bytes regex with re.finditer over the
    UTF-8 encoding of the post text; the model takes that encoding as its
    input and reports byte offsets into it. Each regex is
    `(?:^|\W)(group)`: a match starts at the text's start or after one
    non-word byte, which the match consumes but the group leaves out, and
    finditer resumes the search where the previous match ended. The groups
    are matched the way re backtracks: greedy repetitions first try the
    longest stretch, then give back one byte or one repetition at a time. */
module BskyScan {
  import opened Wrappers
  import opened Bytes

  const At: byte := 0x40
  const Hash: byte := 0x23
  const Dot: byte := 0x2E
  const Hyphen: byte := 0x2D
  const Underscore: byte := 0x5F

  // ---------------------------------------------------------------------
  // Byte classes of the three patterns (ASCII only: a bytes pattern's \w
  // is [a-zA-Z0-9_], so every byte from 0x80 on is \W)
  // ---------------------------------------------------------------------

  predicate IsAlpha(c: byte) { (0x41 <= c <= 0x5A) || (0x61 <= c <= 0x7A) }

  predicate IsDigit(c: byte) { 0x30 <= c <= 0x39 }

  predicate IsAlnum(c: byte) { IsAlpha(c) || IsDigit(c) }

  predicate IsWord(c: byte) { IsAlnum(c) || c == Underscore }

  /** [a-zA-Z0-9-] of a handle label. */
  predicate IsLabelChar(c: byte) { IsAlnum(c) || c == Hyphen }

  /** [\w\-] of a hashtag. */
  predicate IsTagChar(c: byte) { IsWord(c) || c == Hyphen }

  /** [-a-zA-Z0-9@:%._\+~#=] of a URL's host part. */
  predicate IsHostChar(c: byte)
  {
    IsAlnum(c) || c == Hyphen || c == At || c == 0x3A || c == 0x25 || c == Dot
    || c == Underscore || c == 0x2B || c == 0x7E || c == Hash || c == 0x3D
  }

  /** [a-zA-Z0-9()] of a URL's top-level label. */
  predicate IsTldChar(c: byte) { IsAlnum(c) || c == 0x28 || c == 0x29 }

  /** [-a-zA-Z0-9()@:%_\+.~#?&//=] of a URL's path. */
  predicate IsPathChar(c: byte)
  {
    IsAlnum(c) || c == Hyphen || c == 0x28 || c == 0x29 || c == At || c == 0x3A || c == 0x25
    || c == Underscore || c == 0x2B || c == Dot || c == 0x7E || c == Hash || c == 0x3F
    || c == 0x26 || c == 0x2F || c == 0x3D
  }

  /** [-a-zA-Z0-9@%_\+~#//=]: the bytes a URL's path may end with. */
  predicate IsPathEnd(c: byte)
  {
    IsAlnum(c) || c == Hyphen || c == At || c == 0x25 || c == Underscore || c == 0x2B
    || c == 0x7E || c == Hash || c == 0x2F || c == 0x3D
  }

  // ---------------------------------------------------------------------
  // Greedy repetition
  // ---------------------------------------------------------------------

  /** The length of the stretch of `cls` bytes from i on, at most cap: what
      a greedy `cls{0,cap}` takes first. */
  function Run(t: seq<byte>, i: nat, cls: byte -> bool, cap: nat): (r: nat)
    requires i <= |t|
    ensures i + r <= |t| && r <= cap
    decreases cap
  {
    if cap == 0 || i == |t| || !cls(t[i]) then 0 else 1 + Run(t, i + 1, cls, cap - 1)
  }

  lemma {:induction false} RunSpec(t: seq<byte>, i: nat, cls: byte -> bool, cap: nat)
    requires i <= |t|
    ensures var r := Run(t, i, cls, cap);
      && (forall j :: i <= j < i + r ==> cls(t[j]))
      && (r < cap && i + r < |t| ==> !cls(t[i + r]))
    decreases cap
  {
    if cap > 0 && i < |t| && cls(t[i]) {
      RunSpec(t, i + 1, cls, cap - 1);
    }
  }

  /** Giving back bytes: the longest v <= u for which the v bytes from i
      end with a `last` byte, or 0. */
  function BackTo(t: seq<byte>, i: nat, u: nat, last: byte -> bool): (v: nat)
    requires i + u <= |t|
    ensures v <= u && (v > 0 ==> last(t[i + v - 1]))
    decreases u
  {
    if u == 0 || last(t[i + u - 1]) then u else BackTo(t, i, u - 1, last)
  }

  // ---------------------------------------------------------------------
  // #[\w\-]+
  // ---------------------------------------------------------------------

  function TagEnd(t: seq<byte>, g: nat): (r: Option<nat>)
    requires g <= |t|
    ensures r.Some? ==> g + 1 < r.value <= |t|
  {
    if g < |t| && t[g] == Hash && Run(t, g + 1, IsTagChar, |t|) > 0 then
      Some(g + 1 + Run(t, g + 1, IsTagChar, |t|))
    else None
  }

  // ---------------------------------------------------------------------
  // @([a-zA-Z0-9]([a-zA-Z0-9-]{0,61}[a-zA-Z0-9])?\.)+[a-zA-Z]([a-zA-Z0-9-]{0,61}[a-zA-Z0-9])?
  // ---------------------------------------------------------------------

  /** One `label.` group from s: the label cannot hold a dot, so it is the
      whole stretch of label bytes from s, 1 to 63 long, starting and ending
      with a letter or digit, and a dot must follow. The result is the
      position after the dot. */
  function LabelEnd(t: seq<byte>, s: nat): (r: Option<nat>)
    requires s <= |t|
    ensures r.Some? ==> s + 2 <= r.value <= |t|
  {
    var n := Run(t, s, IsLabelChar, |t|);
    if 1 <= n <= 63 && IsAlnum(t[s]) && IsAlnum(t[s + n - 1]) && s + n < |t| && t[s + n] == Dot then
      Some(s + n + 1)
    else None
  }

  /** The position after each of the `label.` groups that follow one
      another from s: the greedy `+` takes all of them first. */
  function Labels(t: seq<byte>, s: nat): (r: seq<nat>)
    requires s <= |t|
    ensures forall j :: 0 <= j < |r| ==> s < r[j] <= |t|
    decreases |t| - s
  {
    match LabelEnd(t, s)
    case Some(s1) => [s1] + Labels(t, s1)
    case None => []
  }

  /** The last label from s: a letter, then the longest stretch of at most
      62 label bytes that ends in a letter or digit (possibly none). */
  function TldEnd(t: seq<byte>, s: nat): (r: Option<nat>)
    requires s <= |t|
    ensures r.Some? ==> s < r.value <= |t|
  {
    if s < |t| && IsAlpha(t[s]) then
      Some(s + 1 + BackTo(t, s + 1, Run(t, s + 1, IsLabelChar, 62), IsAlnum))
    else None
  }

  /** Backtracking over the label groups: with k groups the last label
      starts at starts[k - 1]; fewer groups are tried when it fails. */
  function TldAfter(t: seq<byte>, starts: seq<nat>, k: nat): (r: Option<nat>)
    requires k <= |starts| && forall j :: 0 <= j < |starts| ==> starts[j] <= |t|
    ensures r.Some? ==> r.value <= |t| && exists j :: 0 <= j < k && starts[j] < r.value
    decreases k
  {
    if k == 0 then None
    else match TldEnd(t, starts[k - 1])
      case Some(e) => Some(e)
      case None => TldAfter(t, starts, k - 1)
  }

  function MentionEnd(t: seq<byte>, g: nat): (r: Option<nat>)
    requires g <= |t|
    ensures r.Some? ==> g + 1 < r.value <= |t|
  {
    if g < |t| && t[g] == At then
      var starts := Labels(t, g + 1);
      TldAfter(t, starts, |starts|)
    else None
  }

  // ---------------------------------------------------------------------
  // https?:\/\/(www\.)?[host]{1,256}\.[tld]{1,6}\b([path]*[path end])?
  // ---------------------------------------------------------------------

  const Http: seq<byte> := [0x68, 0x74, 0x74, 0x70]
  const SchemeSep: seq<byte> := [0x3A, 0x2F, 0x2F]
  const SecureSep: seq<byte> := [0x73, 0x3A, 0x2F, 0x2F]
  const Www: seq<byte> := [0x77, 0x77, 0x77, 0x2E]

  predicate HasAt(t: seq<byte>, i: nat, w: seq<byte>)
  {
    i + |w| <= |t| && t[i..i + |w|] == w
  }

  /** After "https://" or "http://" at g. */
  function SchemeEnd(t: seq<byte>, g: nat): (r: Option<nat>)
    ensures r.Some? ==> g + 7 <= r.value <= |t|
  {
    if HasAt(t, g, Http) && HasAt(t, g + 4, SecureSep) then Some(g + 8)
    else if HasAt(t, g, Http) && HasAt(t, g + 4, SchemeSep) then Some(g + 7)
    else None
  }

  /** \b at x: exactly one of the bytes either side is a word byte; outside
      the text counts as a non-word byte. */
  predicate Boundary(t: seq<byte>, x: nat)
    requires x <= |t|
  {
    (x > 0 && IsWord(t[x - 1])) != (x < |t| && IsWord(t[x]))
  }

  /** The optional path from x: the longest stretch of path bytes that ends
      in a byte allowed last, or nothing. */
  function PathLen(t: seq<byte>, x: nat): (r: nat)
    requires x <= |t|
    ensures x + r <= |t|
  {
    BackTo(t, x, Run(t, x, IsPathChar, |t|), IsPathEnd)
  }

  /** The top-level label from c, u bytes long, then fewer: it must end at
      a word boundary. */
  function TryTld(t: seq<byte>, c: nat, u: nat): (r: Option<nat>)
    requires c + u <= |t|
    ensures r.Some? ==> c < r.value <= |t|
    decreases u
  {
    if u == 0 then None
    else if Boundary(t, c + u) then Some(c + u + PathLen(t, c + u))
    else TryTld(t, c, u - 1)
  }

  /** The host from a, d bytes long, then fewer: a dot must follow it, then
      a top-level label. */
  function TryHost(t: seq<byte>, a: nat, d: nat): (r: Option<nat>)
    requires a + d <= |t|
    ensures r.Some? ==> a < r.value <= |t|
    decreases d
  {
    if d == 0 then None
    else if a + d < |t| && t[a + d] == Dot then
      match TryTld(t, a + d + 1, Run(t, a + d + 1, IsTldChar, 6))
      case Some(e) => Some(e)
      case None => TryHost(t, a, d - 1)
    else TryHost(t, a, d - 1)
  }

  function HostEnd(t: seq<byte>, a: nat): (r: Option<nat>)
    requires a <= |t|
    ensures r.Some? ==> a < r.value <= |t|
  {
    TryHost(t, a, Run(t, a, IsHostChar, 256))
  }

  /** The URL group at g: the scheme, then the host with "www." taken
      first and given back if the rest fails. */
  function UrlEnd(t: seq<byte>, g: nat): (r: Option<nat>)
    requires g <= |t|
    ensures r.Some? ==> g < r.value <= |t|
  {
    match SchemeEnd(t, g)
    case None => None
    case Some(a) =>
      if HasAt(t, a, Www) then
        match HostEnd(t, a + 4)
        case Some(e) => Some(e)
        case None => HostEnd(t, a)
      else HostEnd(t, a)
  }

  // ---------------------------------------------------------------------
  // re.finditer
  // ---------------------------------------------------------------------

  /** A group matcher: the end of the group that starts at g, if any. */
  type Group = (seq<byte>, nat) -> Option<nat>

  /** Every group a matcher finds in t is a stretch of t longer than the
      `drop` bytes left out of its reported text. */
  predicate GroupOk(group: Group, drop: nat, t: seq<byte>)
  {
    forall g :: 0 <= g <= |t| && group(t, g).Some? ==> g + drop < group(t, g).value <= |t|
  }

  function MentionGroup(t: seq<byte>, g: nat): (r: Option<nat>)
  {
    if g <= |t| then MentionEnd(t, g) else None
  }

  function UrlGroup(t: seq<byte>, g: nat): (r: Option<nat>)
  {
    if g <= |t| then UrlEnd(t, g) else None
  }

  function TagGroup(t: seq<byte>, g: nat): (r: Option<nat>)
  {
    if g <= |t| then TagEnd(t, g) else None
  }

  lemma MentionGroupOk(t: seq<byte>)
    ensures GroupOk(MentionGroup, 1, t)
  {
  }

  lemma UrlGroupOk(t: seq<byte>)
    ensures GroupOk(UrlGroup, 0, t)
  {
  }

  lemma TagGroupOk(t: seq<byte>)
    ensures GroupOk(TagGroup, 1, t)
  {
  }

  /** A match: the group's byte offsets and the text reported for it. */
  datatype Span = Span(start: nat, end: nat, value: seq<byte>)

  /** The reported text: the group less its first `drop` bytes (the '@' of
      a handle, the '#' of a tag; nothing of a URL). */
  function Cut(t: seq<byte>, g: nat, e: nat, drop: nat): seq<byte>
    requires g + drop <= e <= |t|
  {
    t[g + drop..e]
  }

  /** A reported span: a group match at its start, which is the text's
      start or follows a non-word byte, with its value cut from the text. */
  predicate SpanOk(group: Group, drop: nat, t: seq<byte>, sp: Span)
  {
    && sp.start + drop < sp.end <= |t|
    && group(t, sp.start) == Some(sp.end)
    && (sp.start == 0 || !IsWord(t[sp.start - 1]))
    && sp.value == t[sp.start + drop..sp.end]
  }

  /** The match attempt at p: `^` first (only at 0), then one non-word
      byte. */
  function MatchAt(group: Group, drop: nat, t: seq<byte>, p: nat): (r: Option<Span>)
    requires p < |t| && GroupOk(group, drop, t) && drop <= 1
    ensures r.Some? ==> SpanOk(group, drop, t, r.value)
    ensures r.Some? ==> r.value.start == p + 1 || (p == 0 && r.value.start == 0)
  {
    if p == 0 && group(t, 0).Some? then
      Some(Span(0, group(t, 0).value, Cut(t, 0, group(t, 0).value, drop)))
    else if !IsWord(t[p]) && group(t, p + 1).Some? then
      Some(Span(p + 1, group(t, p + 1).value, Cut(t, p + 1, group(t, p + 1).value, drop)))
    else None
  }

  /** finditer from p: a match, then on from its end; or on from p + 1. */
  function Scan(group: Group, drop: nat, t: seq<byte>, p: nat): (r: seq<Span>)
    requires p <= |t| && GroupOk(group, drop, t) && drop <= 1
    decreases |t| - p
  {
    if p == |t| then []
    else match MatchAt(group, drop, t, p)
      case Some(sp) => [sp] + Scan(group, drop, t, sp.end)
      case None => Scan(group, drop, t, p + 1)
  }

  function ParseMentions(t: seq<byte>): seq<Span>
  {
    MentionGroupOk(t);
    Scan(MentionGroup, 1, t, 0)
  }

  function ParseUrls(t: seq<byte>): seq<Span>
  {
    UrlGroupOk(t);
    Scan(UrlGroup, 0, t, 0)
  }

  function ParseHashtags(t: seq<byte>): seq<Span>
  {
    TagGroupOk(t);
    Scan(TagGroup, 1, t, 0)
  }

  // ---------------------------------------------------------------------
  // What finditer reports
  // ---------------------------------------------------------------------

  /** Every span is a group match inside the text, after p, and each next
      span starts past the end of the one before (the byte between is the
      next match's non-word byte). */
  predicate SpansOk(group: Group, drop: nat, t: seq<byte>, p: nat, r: seq<Span>)
  {
    && (forall i :: 0 <= i < |r| ==> SpanOk(group, drop, t, r[i]) && p <= r[i].start)
    && (forall i :: 0 <= i < |r| ==> p > 0 ==> p < r[i].start)
    && (forall i :: 0 <= i < |r| - 1 ==> r[i].end < r[i + 1].start)
  }

  lemma {:induction false} ScanSound(group: Group, drop: nat, t: seq<byte>, p: nat)
    requires p <= |t| && GroupOk(group, drop, t) && drop <= 1
    ensures SpansOk(group, drop, t, p, Scan(group, drop, t, p))
    decreases |t| - p
  {
    if p < |t| {
      var r := Scan(group, drop, t, p);
      match MatchAt(group, drop, t, p)
      case Some(sp) =>
        var rest := Scan(group, drop, t, sp.end);
        ScanSound(group, drop, t, sp.end);
        assert r == [sp] + rest;
        assert forall i :: 1 <= i < |r| ==> r[i] == rest[i - 1];
      case None =>
        ScanSound(group, drop, t, p + 1);
        assert r == Scan(group, drop, t, p + 1);
    }
  }

  /** No match attempt from p succeeds exactly when finditer reports
      nothing from p. */
  lemma {:induction false} ScanEmpty(group: Group, drop: nat, t: seq<byte>, p: nat)
    requires p <= |t| && GroupOk(group, drop, t) && drop <= 1
    ensures Scan(group, drop, t, p) == [] <==> forall q :: p <= q < |t| ==> MatchAt(group, drop, t, q).None?
    decreases |t| - p
  {
    if p < |t| && MatchAt(group, drop, t, p).None? {
      ScanEmpty(group, drop, t, p + 1);
      assert Scan(group, drop, t, p) == Scan(group, drop, t, p + 1);
    }
  }

  /** q is the first position from p where a match attempt succeeds, and
      the match there is sp. */
  predicate FirstMatch(group: Group, drop: nat, t: seq<byte>, p: nat, q: nat, sp: Span)
    requires GroupOk(group, drop, t) && drop <= 1
  {
    && p <= q < |t| && MatchAt(group, drop, t, q) == Some(sp)
    && forall q' :: p <= q' < q ==> MatchAt(group, drop, t, q').None?
  }

  /** finditer reports the leftmost match from p first, then resumes at its
      end. */
  lemma {:induction false} ScanLeftmost(group: Group, drop: nat, t: seq<byte>, p: nat)
    requires p <= |t| && GroupOk(group, drop, t) && drop <= 1
    requires Scan(group, drop, t, p) != []
    ensures var r := Scan(group, drop, t, p);
      && (exists q :: FirstMatch(group, drop, t, p, q, r[0]))
      && r[1..] == Scan(group, drop, t, r[0].end)
    decreases |t| - p
  {
    var r := Scan(group, drop, t, p);
    match MatchAt(group, drop, t, p)
    case Some(sp) =>
      assert r == [sp] + Scan(group, drop, t, sp.end);
      assert FirstMatch(group, drop, t, p, p, r[0]);
    case None =>
      assert r == Scan(group, drop, t, p + 1);
      ScanLeftmost(group, drop, t, p + 1);
      var q :| FirstMatch(group, drop, t, p + 1, q, r[0]);
      assert FirstMatch(group, drop, t, p, q, r[0]);
  }

  // ---------------------------------------------------------------------
  // What each group matches
  // ---------------------------------------------------------------------

  /** A hashtag group is '#' and the whole stretch of word bytes and
      hyphens after it; it exists exactly when one such byte follows. */
  lemma TagGroupSpans(t: seq<byte>, g: nat)
    requires g <= |t|
    ensures var r := TagEnd(t, g);
      && (r.Some? <==> g + 1 < |t| && t[g] == Hash && IsTagChar(t[g + 1]))
      && (r.Some? ==> (forall j :: g < j < r.value ==> IsTagChar(t[j]))
                      && (r.value == |t| || !IsTagChar(t[r.value])))
  {
    if g < |t| {
      RunSpec(t, g + 1, IsTagChar, |t|);
    }
  }

  /** A host label: 1 to 63 letters, digits and hyphens, starting and
      ending with a letter or digit. */
  predicate IsLabel(w: seq<byte>)
  {
    && 1 <= |w| <= 63 && IsAlnum(w[0]) && IsAlnum(w[|w| - 1])
    && forall j :: 0 <= j < |w| ==> IsLabelChar(w[j])
  }

  /** The position of the first dot in h, or |h|. */
  function DotIndex(h: seq<byte>): (i: nat)
    ensures i <= |h| && (i < |h| ==> h[i] == Dot)
    ensures forall j :: 0 <= j < i ==> h[j] != Dot
    decreases |h|
  {
    if |h| == 0 || h[0] == Dot then 0
    else
      var i := DotIndex(h[1..]);
      assert forall j :: 1 <= j < 1 + i ==> h[j] == h[1..][j - 1];
      1 + i
  }

  /** A handle: a label, a dot, then either a last label that starts with a
      letter or another handle. Labels hold no dot, so the first dot is
      where the first label ends. */
  predicate IsHandle(h: seq<byte>)
    decreases |h|
  {
    var i := DotIndex(h);
    && 0 < i < |h| - 1 && IsLabel(h[..i])
    && ((IsLabel(h[i + 1..]) && IsAlpha(h[i + 1])) || IsHandle(h[i + 1..]))
  }

  lemma LabelEndIsLabel(t: seq<byte>, s: nat, s1: nat)
    requires s <= |t| && LabelEnd(t, s) == Some(s1)
    ensures s + 2 <= s1 <= |t| && t[s1 - 1] == Dot && IsLabel(t[s..s1 - 1])
  {
    RunSpec(t, s, IsLabelChar, |t|);
  }

  lemma TldEndIsLabel(t: seq<byte>, s: nat, e: nat)
    requires s <= |t| && TldEnd(t, s) == Some(e)
    ensures s < e <= |t| && IsLabel(t[s..e]) && IsAlpha(t[s])
  {
    assert s < |t| && IsAlpha(t[s]);
    var v := BackTo(t, s + 1, Run(t, s + 1, IsLabelChar, 62), IsAlnum);
    assert e == s + 1 + v && v <= 62;
    BackToRun(t, s + 1, IsLabelChar, 62, IsAlnum);
    LabelFrom(t, s, v);
  }

  /** The bytes a greedy run keeps after giving some back are still of its
      class, and the last of them (if any) is a `last` byte. */
  lemma BackToRun(t: seq<byte>, i: nat, cls: byte -> bool, cap: nat, last: byte -> bool)
    requires i <= |t|
    ensures var v := BackTo(t, i, Run(t, i, cls, cap), last);
      (forall j :: i <= j < i + v ==> cls(t[j])) && (v > 0 ==> last(t[i + v - 1]))
  {
    RunSpec(t, i, cls, cap);
  }

  /** A letter at s followed by v label bytes, the last a letter or digit,
      is a label. */
  lemma LabelFrom(t: seq<byte>, s: nat, v: nat)
    requires s + 1 + v <= |t| && v <= 62 && IsAlpha(t[s])
    requires forall j :: s + 1 <= j < s + 1 + v ==> IsLabelChar(t[j])
    requires v > 0 ==> IsAlnum(t[s + 1 + v - 1])
    ensures IsLabel(t[s..s + 1 + v])
  {
    var w := t[s..s + 1 + v];
    forall j | 0 <= j < |w| ensures IsLabelChar(w[j]) {
      assert w[j] == t[s + j];
    }
    assert w[|w| - 1] == t[s + v];
  }

  lemma DotIndexAt(h: seq<byte>, i: nat)
    requires i < |h| && h[i] == Dot && forall j :: 0 <= j < i ==> h[j] != Dot
    ensures DotIndex(h) == i
  {
  }

  lemma LabelHasNoDot(w: seq<byte>)
    requires IsLabel(w)
    ensures forall j :: 0 <= j < |w| ==> w[j] != Dot
  {
  }

  /** A label, a dot, then a last label or a further handle make a
      handle. */
  lemma HandleAt(h: seq<byte>, i: nat, head: seq<byte>, tail: seq<byte>)
    requires 0 < i < |h| - 1 && h[i] == Dot && h[..i] == head && h[i + 1..] == tail
    requires IsLabel(head) && ((IsLabel(tail) && IsAlpha(tail[0])) || IsHandle(tail))
    ensures IsHandle(h)
  {
    LabelHasNoDot(head);
    assert forall j :: 0 <= j < i ==> h[j] == head[j];
    DotIndexAt(h, i);
  }

  lemma SplitAtDot(t: seq<byte>, s: nat, m: nat, e: nat)
    requires s < m < e <= |t|
    ensures t[s..e][..m - s] == t[s..m] && t[s..e][m - s + 1..] == t[m + 1..e]
    ensures t[s..e][m - s] == t[m]
  {
  }

  /** A label from s, a dot just before s1, then a last label or a further
      handle up to e, make a handle. */
  lemma HandleFrom(t: seq<byte>, s: nat, s1: nat, e: nat)
    requires s + 1 < s1 < e <= |t| && t[s1 - 1] == Dot && IsLabel(t[s..s1 - 1])
    requires (IsLabel(t[s1..e]) && IsAlpha(t[s1])) || IsHandle(t[s1..e])
    ensures IsHandle(t[s..e])
  {
    SplitAtDot(t, s, s1 - 1, e);
    HandleAt(t[s..e], s1 - 1 - s, t[s..s1 - 1], t[s1..e]);
  }

  lemma HandleAfterLabel(t: seq<byte>, s: nat, s1: nat, e: nat)
    requires s <= |t| && LabelEnd(t, s) == Some(s1) && s1 < e <= |t|
    requires (IsLabel(t[s1..e]) && IsAlpha(t[s1])) || IsHandle(t[s1..e])
    ensures IsHandle(t[s..e])
  {
    LabelEndIsLabel(t, s, s1);
    HandleFrom(t, s, s1, e);
  }

  /** From the start of any label group, the chosen last label completes a
      handle. */
  lemma {:induction false} LabelsMakeHandle(t: seq<byte>, s: nat, k: nat, e: nat)
    requires s <= |t| && 1 <= k <= |Labels(t, s)| && TldAfter(t, Labels(t, s), k) == Some(e)
    ensures s < e <= |t| && IsHandle(t[s..e])
    decreases |t| - s, k, 1
  {
    var starts := Labels(t, s);
    if TldEnd(t, starts[k - 1]).None? {
      assert k > 1 && TldAfter(t, starts, k - 1) == Some(e);
      LabelsMakeHandle(t, s, k - 1, e);
    } else {
      ChosenLabelMakesHandle(t, s, k, e);
    }
  }

  /** The case where the last label starts after the k-th label group. */
  lemma {:induction false} ChosenLabelMakesHandle(t: seq<byte>, s: nat, k: nat, e: nat)
    requires s <= |t| && 1 <= k <= |Labels(t, s)| && TldEnd(t, Labels(t, s)[k - 1]) == Some(e)
    ensures s < e <= |t| && IsHandle(t[s..e])
    decreases |t| - s, k, 0
  {
    var starts := Labels(t, s);
    var s1 := LabelEnd(t, s).value;
    assert starts == [s1] + Labels(t, s1);
    if k == 1 {
      TldEndIsLabel(t, s1, e);
    } else {
      TldAfterAt(t, starts, k);
      LabelsMakeHandle(t, s1, k - 1, e);
    }
    HandleAfterLabel(t, s, s1, e);
  }

  lemma TldAfterAt(t: seq<byte>, starts: seq<nat>, k: nat)
    requires 2 <= k <= |starts| && forall j :: 0 <= j < |starts| ==> starts[j] <= |t|
    requires TldEnd(t, starts[k - 1]).Some?
    ensures TldAfter(t, starts[1..], k - 1) == TldEnd(t, starts[k - 1])
  {
  }

  /** A mention group is '@' and a handle. */
  lemma MentionIsHandle(t: seq<byte>, g: nat)
    requires g <= |t| && MentionEnd(t, g).Some?
    ensures t[g] == At && IsHandle(t[g + 1..MentionEnd(t, g).value])
  {
    var starts := Labels(t, g + 1);
    LabelsMakeHandle(t, g + 1, |starts|, MentionEnd(t, g).value);
  }

  /** A URL group starts with its scheme and never ends with '.', ')',
      '(', '?', '&' or ':': its last byte is one the path may end with. */
  lemma UrlShape(t: seq<byte>, g: nat)
    requires g <= |t| && UrlEnd(t, g).Some?
    ensures var e := UrlEnd(t, g).value;
      && (HasAt(t, g, Http + SecureSep) || HasAt(t, g, Http + SchemeSep))
      && IsPathEnd(t[e - 1])
  {
    SchemeShape(t, g);
    UrlEndsWell(t, g);
  }

  lemma UrlEndsWell(t: seq<byte>, g: nat)
    requires g <= |t| && UrlEnd(t, g).Some?
    ensures IsPathEnd(t[UrlEnd(t, g).value - 1])
  {
    var a := SchemeEnd(t, g).value;
    var e := UrlEnd(t, g).value;
    if HasAt(t, a, Www) && HostEnd(t, a + 4).Some? {
      HostEndsWell(t, a + 4, e);
    } else {
      HostEndsWell(t, a, e);
    }
  }

  lemma SchemeShape(t: seq<byte>, g: nat)
    requires SchemeEnd(t, g).Some?
    ensures HasAt(t, g, Http + SecureSep) || HasAt(t, g, Http + SchemeSep)
  {
    if HasAt(t, g, Http) && HasAt(t, g + 4, SecureSep) {
      assert t[g..g + 8] == t[g..g + 4] + t[g + 4..g + 8];
    } else {
      assert t[g..g + 7] == t[g..g + 4] + t[g + 4..g + 7];
    }
  }

  lemma HostEndsWell(t: seq<byte>, a: nat, e: nat)
    requires a <= |t| && HostEnd(t, a) == Some(e)
    ensures 0 < e <= |t| && IsPathEnd(t[e - 1])
  {
    TryHostEndsWell(t, a, Run(t, a, IsHostChar, 256), e);
  }

  lemma {:induction false} TryHostEndsWell(t: seq<byte>, a: nat, d: nat, e: nat)
    requires a + d <= |t| && TryHost(t, a, d) == Some(e)
    ensures 0 < e <= |t| && IsPathEnd(t[e - 1])
    decreases d
  {
    var c := a + d + 1;
    if a + d < |t| && t[a + d] == Dot {
      var u := Run(t, c, IsTldChar, 6);
      if TryTld(t, c, u).Some? {
        assert TryTld(t, c, u) == Some(e);
        RunSpec(t, c, IsTldChar, 6);
        TryTldEndsWell(t, c, u);
      } else {
        assert TryHost(t, a, d - 1) == Some(e);
        TryHostEndsWell(t, a, d - 1, e);
      }
    } else {
      assert TryHost(t, a, d - 1) == Some(e);
      TryHostEndsWell(t, a, d - 1, e);
    }
  }

  /** The top-level label ends at a word boundary: after a letter or digit
      the path may be empty; after '(' or ')' a word byte follows, which
      the path then takes. */
  lemma {:induction false} TryTldEndsWell(t: seq<byte>, c: nat, u: nat)
    requires c + u <= |t| && TryTld(t, c, u).Some?
    requires forall j :: c <= j < c + u ==> IsTldChar(t[j])
    ensures IsPathEnd(t[TryTld(t, c, u).value - 1])
    decreases u
  {
    var x := c + u;
    if Boundary(t, x) {
      var n := Run(t, x, IsPathChar, |t|);
      if !IsWord(t[x - 1]) {
        assert x < |t| && IsWord(t[x]);
        assert n > 0;
        assert BackTo(t, x, n, IsPathEnd) > 0 by {
          BackToPositive(t, x, n, IsPathEnd);
        }
      }
    } else {
      TryTldEndsWell(t, c, u - 1);
    }
  }

  lemma {:induction false} BackToPositive(t: seq<byte>, i: nat, u: nat, last: byte -> bool)
    requires 0 < u && i + u <= |t| && last(t[i])
    ensures BackTo(t, i, u, last) > 0
    decreases u
  {
    if u > 1 && !last(t[i + u - 1]) {
      BackToPositive(t, i, u - 1, last);
    }
  }

  // ---------------------------------------------------------------------
  // What each parser reports
  // ---------------------------------------------------------------------

  /** Every reported mention is '@' and a handle, at byte offsets inside the
      text, after the text's start or a non-word byte; its handle is the
      group less the '@'; the mentions come in text order, apart. */
  lemma MentionSpans(t: seq<byte>)
    ensures var r := ParseMentions(t);
      && SpansOk(MentionGroup, 1, t, 0, r)
      && forall i :: 0 <= i < |r| ==> t[r[i].start] == At && IsHandle(r[i].value)
  {
    MentionGroupOk(t);
    var r := ParseMentions(t);
    ScanSound(MentionGroup, 1, t, 0);
    forall i | 0 <= i < |r|
      ensures t[r[i].start] == At && IsHandle(r[i].value)
    {
      MentionIsHandle(t, r[i].start);
    }
  }

  /** Every reported URL starts with its scheme and ends with a byte a path
      may end with. */
  lemma UrlSpans(t: seq<byte>)
    ensures var r := ParseUrls(t);
      && SpansOk(UrlGroup, 0, t, 0, r)
      && forall i :: 0 <= i < |r| ==>
           && r[i].value == t[r[i].start..r[i].end]
           && (HasAt(t, r[i].start, Http + SecureSep) || HasAt(t, r[i].start, Http + SchemeSep))
           && IsPathEnd(t[r[i].end - 1])
  {
    UrlGroupOk(t);
    var r := ParseUrls(t);
    ScanSound(UrlGroup, 0, t, 0);
    forall i | 0 <= i < |r|
      ensures (HasAt(t, r[i].start, Http + SecureSep) || HasAt(t, r[i].start, Http + SchemeSep))
           && IsPathEnd(t[r[i].end - 1])
    {
      UrlShape(t, r[i].start);
    }
  }

  /** Every reported hashtag is '#' and the whole stretch of word bytes and
      hyphens after it; its tag is that stretch. */
  lemma HashtagSpans(t: seq<byte>)
    ensures var r := ParseHashtags(t);
      && SpansOk(TagGroup, 1, t, 0, r)
      && forall i :: 0 <= i < |r| ==>
           && t[r[i].start] == Hash
           && (forall j :: 0 <= j < |r[i].value| ==> IsTagChar(r[i].value[j]))
           && (r[i].end == |t| || !IsTagChar(t[r[i].end]))
  {
    TagGroupOk(t);
    var r := ParseHashtags(t);
    ScanSound(TagGroup, 1, t, 0);
    forall i | 0 <= i < |r|
      ensures t[r[i].start] == Hash
           && (forall j :: 0 <= j < |r[i].value| ==> IsTagChar(r[i].value[j]))
           && (r[i].end == |t| || !IsTagChar(t[r[i].end]))
    {
      TagGroupSpans(t, r[i].start);
    }
  }

  // ---------------------------------------------------------------------
  // The examples of the source's tests
  // ---------------------------------------------------------------------

  /** "#123 #abc-def" */
  const TagsText: seq<byte> := [0x23, 0x31, 0x32, 0x33, 0x20, 0x23, 0x61, 0x62, 0x63, 0x2D, 0x64, 0x65, 0x66]

  lemma TagsGroups()
    ensures TagGroup(TagsText, 0) == Some(4) && TagGroup(TagsText, 5) == Some(13)
  {
    var t := TagsText;
    assert Run(t, 4, IsTagChar, 10) == 0;
    assert Run(t, 1, IsTagChar, 13) == 3;
    assert Run(t, 13, IsTagChar, 1) == 0;
    assert Run(t, 6, IsTagChar, 13) == 7;
  }

  lemma TagsExample()
    ensures ParseHashtags(TagsText) == [Span(0, 4, [0x31, 0x32, 0x33]), Span(5, 13, [0x61, 0x62, 0x63, 0x2D, 0x64, 0x65, 0x66])]
  {
    var t := TagsText;
    TagGroupOk(t);
    TagsGroups();
    assert Scan(TagGroup, 1, t, 13) == [];
    assert Scan(TagGroup, 1, t, 4) == [Span(5, 13, t[6..13])];
    assert Scan(TagGroup, 1, t, 0) == [Span(0, 4, t[1..4])] + Scan(TagGroup, 1, t, 4);
    assert t[1..4] == [0x31, 0x32, 0x33];
    assert t[6..13] == [0x61, 0x62, 0x63, 0x2D, 0x64, 0x65, 0x66];
  }

  /** One step of finditer over a text whose group matches are known. */
  lemma ScanStep(group: Group, drop: nat, t: seq<byte>, p: nat, e: nat)
    requires p < |t| && GroupOk(group, drop, t) && drop <= 1
    requires p > 0 && !IsWord(t[p]) && group(t, p + 1) == Some(e)
    ensures Scan(group, drop, t, p) == [Span(p + 1, e, t[p + 1 + drop..e])] + Scan(group, drop, t, e)
  {
  }

  lemma ScanPastWord(group: Group, drop: nat, t: seq<byte>, p: nat)
    requires p < |t| && GroupOk(group, drop, t) && drop <= 1
    requires (p > 0 || group(t, 0).None?) && IsWord(t[p])
    ensures Scan(group, drop, t, p) == Scan(group, drop, t, p + 1)
  {
  }

  lemma ScanPastNone(group: Group, drop: nat, t: seq<byte>, p: nat)
    requires p < |t| && GroupOk(group, drop, t) && drop <= 1
    requires (p > 0 || group(t, 0).None?) && group(t, p + 1).None?
    ensures Scan(group, drop, t, p) == Scan(group, drop, t, p + 1)
  {
  }

  /** t holds the bytes of w. The longer examples are stated for every
      such t rather than for the literal itself, so that the proof steps
      through the scanner one call at a time. */
  predicate Spells(t: seq<byte>, w: seq<byte>)
  {
    |t| == |w| && forall i :: 0 <= i < |w| ==> t[i] == w[i]
  }

  /** "cc:@example.com": the ':' before the '@' is the non-word byte. */
  const CcText: seq<byte> := [0x63, 0x63, 0x3A, 0x40, 0x65, 0x78, 0x61, 0x6D, 0x70, 0x6C, 0x65, 0x2E, 0x63, 0x6F, 0x6D]

  lemma CcGroup(t: seq<byte>)
    requires Spells(t, CcText)
    ensures MentionGroup(t, 0) == None && MentionGroup(t, 3) == Some(15)
  {
    assert Run(t, 11, IsLabelChar, 8) == 0;
    assert Run(t, 4, IsLabelChar, 15) == 7;
    assert LabelEnd(t, 4) == Some(12);
    assert Run(t, 15, IsLabelChar, 12) == 0;
    assert Run(t, 12, IsLabelChar, 15) == 3;
    assert LabelEnd(t, 12) == None;
    assert Labels(t, 12) == [];
    assert Labels(t, 4) == [12];
    assert Run(t, 13, IsLabelChar, 62) == 2;
    assert TldEnd(t, 12) == Some(15);
  }

  lemma CcScan(t: seq<byte>)
    requires Spells(t, CcText)
    ensures ParseMentions(t) == [Span(3, 15, t[4..15])]
  {
    MentionGroupOk(t);
    CcGroup(t);
    assert Scan(MentionGroup, 1, t, 15) == [];
    ScanStep(MentionGroup, 1, t, 2, 15);
    ScanPastWord(MentionGroup, 1, t, 1);
    ScanPastWord(MentionGroup, 1, t, 0);
  }

  lemma CcHandle(t: seq<byte>)
    requires Spells(t, CcText)
    ensures t[4..15] == [0x65, 0x78, 0x61, 0x6D, 0x70, 0x6C, 0x65, 0x2E, 0x63, 0x6F, 0x6D]
  {
    assert t[4..15] == CcText[4..15];
  }

  lemma CcExample(t: seq<byte>)
    requires Spells(t, CcText)
    ensures ParseMentions(t) == [Span(3, 15, [0x65, 0x78, 0x61, 0x6D, 0x70, 0x6C, 0x65, 0x2E, 0x63, 0x6F, 0x6D])]
  {
    CcScan(t);
    CcHandle(t);
  }

  /** "@bare": a handle needs a dot. */
  const BareText: seq<byte> := [0x40, 0x62, 0x61, 0x72, 0x65]

  lemma BareExample()
    ensures ParseMentions(BareText) == []
  {
    var t := BareText;
    MentionGroupOk(t);
    assert Run(t, 5, IsLabelChar, 1) == 0;
    assert Run(t, 1, IsLabelChar, 5) == 4;
    assert Labels(t, 1) == [];
    assert MentionGroup(t, 0) == None;
    assert MentionGroup(t, 1) == None;
    assert Scan(MentionGroup, 1, t, 1) == [];
  }

  /** "ref (https://bsky.app/)": the host gives back "app" to the top-level
      label, and the path gives back the ')' it may not end with. */
  const RefText: seq<byte> := [0x72, 0x65, 0x66, 0x20, 0x28, 0x68, 0x74, 0x74, 0x70, 0x73, 0x3A, 0x2F, 0x2F, 0x62, 0x73, 0x6B, 0x79, 0x2E, 0x61, 0x70, 0x70, 0x2F, 0x29]

  lemma RefTld(t: seq<byte>)
    requires Spells(t, RefText)
    ensures Run(t, 18, IsTldChar, 6) == 3 && TryTld(t, 18, 3) == Some(22)
  {
    assert Run(t, 21, IsTldChar, 3) == 0;
    assert Run(t, 23, IsPathChar, 21) == 0;
    assert Run(t, 21, IsPathChar, 23) == 2;
    assert PathLen(t, 21) == 1;
  }

  lemma RefHost(t: seq<byte>)
    requires Spells(t, RefText)
    ensures HostEnd(t, 13) == Some(22)
  {
    assert Run(t, 21, IsHostChar, 248) == 0;
    assert Run(t, 13, IsHostChar, 256) == 8;
    RefTld(t);
    assert TryHost(t, 13, 4) == Some(22);
    assert TryHost(t, 13, 8) == Some(22);
  }

  lemma RefGroup(t: seq<byte>)
    requires Spells(t, RefText)
    ensures UrlGroup(t, 0) == None && UrlGroup(t, 4) == None && UrlGroup(t, 23) == None
    ensures UrlGroup(t, 5) == Some(22)
  {
    assert t[5..9] == Http && t[9..13] == SecureSep;
    assert t[13..17] != Www by { assert t[13] != Www[0]; }
    assert t[0..4] != Http by { assert t[0] != Http[0]; }
    assert t[4..8] != Http by { assert t[4] != Http[0]; }
    RefHost(t);
  }

  /** finditer over the text with any group matcher that agrees with the
      URL group where the scan asks it. */
  lemma RefSteps(group: Group, t: seq<byte>)
    requires Spells(t, RefText) && GroupOk(group, 0, t)
    requires group(t, 0) == None && group(t, 4) == None && group(t, 23) == None
    requires group(t, 5) == Some(22)
    ensures Scan(group, 0, t, 0) == [Span(5, 22, t[5..22])]
  {
    assert Scan(group, 0, t, 23) == [];
    ScanPastNone(group, 0, t, 22);
    ScanStep(group, 0, t, 4, 22);
    ScanPastNone(group, 0, t, 3);
    ScanPastWord(group, 0, t, 2);
    ScanPastWord(group, 0, t, 1);
    ScanPastWord(group, 0, t, 0);
  }

  lemma RefScan(t: seq<byte>)
    requires Spells(t, RefText)
    ensures ParseUrls(t) == [Span(5, 22, t[5..22])]
  {
    UrlGroupOk(t);
    RefGroup(t);
    RefSteps(UrlGroup, t);
  }

  lemma RefUrl(t: seq<byte>)
    requires Spells(t, RefText)
    ensures t[5..22] == [0x68, 0x74, 0x74, 0x70, 0x73, 0x3A, 0x2F, 0x2F, 0x62, 0x73, 0x6B, 0x79, 0x2E, 0x61, 0x70, 0x70, 0x2F]
  {
    assert t[5..22] == RefText[5..22];
  }

  lemma RefExample(t: seq<byte>)
    requires Spells(t, RefText)
    ensures ParseUrls(t) == [Span(5, 22, [0x68, 0x74, 0x74, 0x70, 0x73, 0x3A, 0x2F, 0x2F, 0x62, 0x73, 0x6B, 0x79, 0x2E, 0x61, 0x70, 0x70, 0x2F])]
  {
    RefScan(t);
    RefUrl(t);
  }
}

/** The post assembly of src/bsky/bsky_post.py: parse_facets,
    get_reply_refs, get_embed_ref, upload_images and the field rules of
    create_post. The network calls (resolveHandle, getRecord, uploadBlob
    and the link-card fetch) are parameters: each returns what the source
    goes on with, or the error that ends the run. */
module BskyPost {
  import opened Wrappers
  import opened Bytes
  import opened BskyScan
  import opened BskyUri

  /** Why create_post stops: a ValueError of parse_uri, an HTTP error the
      script does not catch, a handle resolution answer without a "did"
      (a KeyError), or an image over the size limit. */
  datatype PostError =
    | BadUri(uriError: UriError)
    | HttpError
    | MissingDid
    | ImageTooLarge(size: nat)

  // ---------------------------------------------------------------------
  // parse_facets
  // ---------------------------------------------------------------------

  /** What resolveHandle gives for a handle: a DID; a 400 answer or a
      requests.RequestException, after which the mention is skipped; or an
      answer whose JSON has no "did". */
  datatype Resolution = Did(did: string) | BadRequest | RequestFailed | NoDid

  type Resolver = seq<byte> -> Resolution

  datatype Feature = Mention(did: string) | Link(uri: seq<byte>) | Tag(tag: seq<byte>)

  /** An app.bsky.richtext.facet: a byte range of the UTF-8 text and what
      it stands for. */
  datatype Facet = Facet(byteStart: nat, byteEnd: nat, feature: Feature)

  predicate Skipped(r: Resolution) { r.BadRequest? || r.RequestFailed? }

  /** The mention facets, in text order: a resolved handle becomes a
      facet, a skipped one is left out, and a missing DID ends the run. */
  function MentionFacets(spans: seq<Span>, resolve: Resolver): (r: Result<seq<Facet>, PostError>)
    ensures r.Failure? ==> r.error == MissingDid
    ensures r.Success? ==> |r.value| <= |spans|
    decreases |spans|
  {
    if |spans| == 0 then Success([])
    else
      var sp := spans[0];
      match resolve(sp.value)
      case NoDid => Failure(MissingDid)
      case Did(d) =>
        var rest :- MentionFacets(spans[1..], resolve);
        Success([Facet(sp.start, sp.end, Mention(d))] + rest)
      case _ => MentionFacets(spans[1..], resolve)
  }

  function LinkFacets(spans: seq<Span>): (r: seq<Facet>)
    ensures |r| == |spans|
  {
    seq(|spans|, i requires 0 <= i < |spans| => Facet(spans[i].start, spans[i].end, Link(spans[i].value)))
  }

  function TagFacets(spans: seq<Span>): (r: seq<Facet>)
    ensures |r| == |spans|
  {
    seq(|spans|, i requires 0 <= i < |spans| => Facet(spans[i].start, spans[i].end, Tag(spans[i].value)))
  }

  /** parse_facets over the UTF-8 encoding t of the post text: the
      mentions, then the links, then the hashtags. */
  function ParseFacets(t: seq<byte>, resolve: Resolver): Result<seq<Facet>, PostError>
  {
    var mentions :- MentionFacets(ParseMentions(t), resolve);
    Success(mentions + LinkFacets(ParseUrls(t)) + TagFacets(ParseHashtags(t)))
  }

  /** The mention facet a span gives: one when its handle resolves. */
  function MentionFacet(sp: Span, resolve: Resolver): Option<Facet>
  {
    match resolve(sp.value)
    case Did(d) => Some(Facet(sp.start, sp.end, Mention(d)))
    case _ => None
  }

  predicate Unresolvable(spans: seq<Span>, resolve: Resolver)
  {
    exists i :: 0 <= i < |spans| && resolve(spans[i].value).NoDid?
  }

  /** Byte ranges that follow one another without overlapping. */
  predicate Ordered(fs: seq<Facet>)
  {
    forall k :: 0 <= k < |fs| - 1 ==> fs[k].byteEnd < fs[k + 1].byteStart
  }

  /** Spans as the scanner finds them: non-empty, in text order. */
  predicate SpansOrdered(spans: seq<Span>)
  {
    && (forall i :: 0 <= i < |spans| ==> spans[i].start < spans[i].end)
    && (forall i :: 0 <= i < |spans| - 1 ==> spans[i].end < spans[i + 1].start)
  }

  /** The mentions fail exactly when some handle's answer has no DID. */
  lemma {:induction false} MentionFacetsFail(spans: seq<Span>, resolve: Resolver)
    ensures MentionFacets(spans, resolve).Failure? <==> Unresolvable(spans, resolve)
    decreases |spans|
  {
    if |spans| > 0 {
      var tail := spans[1..];
      MentionFacetsFail(tail, resolve);
      if Unresolvable(tail, resolve) {
        var i :| 0 <= i < |tail| && resolve(tail[i].value).NoDid?;
        assert resolve(spans[i + 1].value).NoDid?;
      }
      if Unresolvable(spans, resolve) && !resolve(spans[0].value).NoDid? {
        var i :| 0 <= i < |spans| && resolve(spans[i].value).NoDid?;
        assert resolve(tail[i - 1].value).NoDid?;
      }
    }
  }

  /** Every mention facet is the facet of a span whose handle resolved. */
  lemma {:induction false} MentionFacetsSound(spans: seq<Span>, resolve: Resolver)
    requires MentionFacets(spans, resolve).Success?
    ensures var r := MentionFacets(spans, resolve).value;
      forall k :: 0 <= k < |r| ==> exists i :: 0 <= i < |spans| && MentionFacet(spans[i], resolve) == Some(r[k])
    decreases |spans|
  {
    if |spans| > 0 {
      var tail := spans[1..];
      MentionFacetsSound(tail, resolve);
      var r := MentionFacets(spans, resolve).value;
      var rest := MentionFacets(tail, resolve).value;
      if resolve(spans[0].value).Did? {
        assert r == [MentionFacet(spans[0], resolve).value] + rest;
        forall k | 0 <= k < |r|
          ensures exists i :: 0 <= i < |spans| && MentionFacet(spans[i], resolve) == Some(r[k])
        {
          if k == 0 {
            assert MentionFacet(spans[0], resolve) == Some(r[0]);
          } else {
            var i :| 0 <= i < |tail| && MentionFacet(tail[i], resolve) == Some(rest[k - 1]);
            assert MentionFacet(spans[i + 1], resolve) == Some(r[k]);
          }
        }
      } else {
        forall k | 0 <= k < |r|
          ensures exists i :: 0 <= i < |spans| && MentionFacet(spans[i], resolve) == Some(r[k])
        {
          var i :| 0 <= i < |tail| && MentionFacet(tail[i], resolve) == Some(rest[k]);
          assert MentionFacet(spans[i + 1], resolve) == Some(r[k]);
        }
      }
    }
  }

  /** Every span whose handle resolved has its facet among the mentions. */
  lemma {:induction false} MentionFacetsComplete(spans: seq<Span>, resolve: Resolver)
    requires MentionFacets(spans, resolve).Success?
    ensures forall i :: 0 <= i < |spans| && MentionFacet(spans[i], resolve).Some? ==>
              MentionFacet(spans[i], resolve).value in MentionFacets(spans, resolve).value
    decreases |spans|
  {
    if |spans| > 0 {
      var tail := spans[1..];
      MentionFacetsComplete(tail, resolve);
      var r := MentionFacets(spans, resolve).value;
      var rest := MentionFacets(tail, resolve).value;
      assert forall x :: x in rest ==> x in r;
      forall i | 0 <= i < |spans| && MentionFacet(spans[i], resolve).Some?
        ensures MentionFacet(spans[i], resolve).value in r
      {
        if i > 0 {
          assert spans[i] == tail[i - 1];
        }
      }
    }
  }

  /** The mention facets keep the order of their spans, so they do not
      overlap. */
  lemma {:induction false} MentionFacetsOrdered(spans: seq<Span>, resolve: Resolver)
    requires SpansOrdered(spans)
    requires MentionFacets(spans, resolve).Success?
    ensures Ordered(MentionFacets(spans, resolve).value)
    ensures var r := MentionFacets(spans, resolve).value;
      |r| > 0 ==> |spans| > 0 && spans[0].start <= r[0].byteStart
    decreases |spans|
  {
    if |spans| > 0 {
      var tail := spans[1..];
      assert SpansOrdered(tail) by {
        assert forall i :: 0 <= i < |tail| ==> tail[i] == spans[i + 1];
      }
      MentionFacetsOrdered(tail, resolve);
      var r := MentionFacets(spans, resolve).value;
      var rest := MentionFacets(tail, resolve).value;
      if resolve(spans[0].value).Did? {
        assert r == [MentionFacet(spans[0], resolve).value] + rest;
        if |rest| > 0 {
          assert spans[0].end <= spans[0].end < tail[0].start <= rest[0].byteStart;
        }
        assert forall k :: 1 <= k < |r| ==> r[k] == rest[k - 1];
      } else if |rest| > 0 {
        assert spans[0].start < spans[0].end < tail[0].start;
      }
    }
  }

  /** The mention facets of a text follow one another in it. */
  lemma MentionsFollowText(t: seq<byte>, resolve: Resolver)
    requires MentionFacets(ParseMentions(t), resolve).Success?
    ensures Ordered(MentionFacets(ParseMentions(t), resolve).value)
  {
    var mentions := ParseMentions(t);
    MentionSpans(t);
    forall i | 0 <= i < |mentions|
      ensures mentions[i].start < mentions[i].end
    {
      assert SpanOk(MentionGroup, 1, t, mentions[i]);
    }
    MentionFacetsOrdered(mentions, resolve);
  }

  /** parse_facets fails exactly when a mentioned handle's answer has no
      DID. */
  lemma FacetsFail(t: seq<byte>, resolve: Resolver)
    ensures ParseFacets(t, resolve).Failure? <==> Unresolvable(ParseMentions(t), resolve)
  {
    MentionFacetsFail(ParseMentions(t), resolve);
  }

  /** The facets of a post: the mentions that resolved, then one link facet
      per URL and one tag facet per hashtag, in the order found. */
  lemma FacetsLayout(t: seq<byte>, resolve: Resolver)
    requires ParseFacets(t, resolve).Success?
    ensures var r := ParseFacets(t, resolve).value;
      var m := MentionFacets(ParseMentions(t), resolve).value;
      var urls := ParseUrls(t);
      var tags := ParseHashtags(t);
      && |r| == |m| + |urls| + |tags|
      && r[..|m|] == m
      && (forall k :: 0 <= k < |urls| ==> r[|m| + k] == Facet(urls[k].start, urls[k].end, Link(urls[k].value)))
      && (forall k :: 0 <= k < |tags| ==> r[|m| + |urls| + k] == Facet(tags[k].start, tags[k].end, Tag(tags[k].value)))
  {
    var m := MentionFacets(ParseMentions(t), resolve).value;
    var links := LinkFacets(ParseUrls(t));
    var tags := TagFacets(ParseHashtags(t));
    var r := ParseFacets(t, resolve).value;
    assert r == m + links + tags;
  }

  predicate InText(fs: seq<Facet>, t: seq<byte>)
  {
    forall k :: 0 <= k < |fs| ==> fs[k].byteStart < fs[k].byteEnd <= |t|
  }

  lemma InTextConcat(a: seq<Facet>, b: seq<Facet>, t: seq<byte>)
    requires InText(a, t) && InText(b, t)
    ensures InText(a + b, t)
  {
    forall k | 0 <= k < |a + b|
      ensures (a + b)[k].byteStart < (a + b)[k].byteEnd <= |t|
    {
      if k >= |a| {
        assert (a + b)[k] == b[k - |a|];
      }
    }
  }

  lemma MentionsInText(t: seq<byte>, resolve: Resolver)
    requires MentionFacets(ParseMentions(t), resolve).Success?
    ensures InText(MentionFacets(ParseMentions(t), resolve).value, t)
  {
    var mentions := ParseMentions(t);
    MentionSpans(t);
    MentionFacetsSound(mentions, resolve);
    var m := MentionFacets(mentions, resolve).value;
    forall k | 0 <= k < |m|
      ensures m[k].byteStart < m[k].byteEnd <= |t|
    {
      var i :| 0 <= i < |mentions| && MentionFacet(mentions[i], resolve) == Some(m[k]);
      assert SpanOk(MentionGroup, 1, t, mentions[i]);
    }
  }

  lemma LinksInText(t: seq<byte>)
    ensures InText(LinkFacets(ParseUrls(t)), t)
  {
    UrlSpans(t);
    var urls := ParseUrls(t);
    forall k | 0 <= k < |urls|
      ensures urls[k].start < urls[k].end <= |t|
    {
      assert SpanOk(UrlGroup, 0, t, urls[k]);
    }
  }

  lemma TagsInText(t: seq<byte>)
    ensures InText(TagFacets(ParseHashtags(t)), t)
  {
    HashtagSpans(t);
    var tags := ParseHashtags(t);
    forall k | 0 <= k < |tags|
      ensures tags[k].start < tags[k].end <= |t|
    {
      assert SpanOk(TagGroup, 1, t, tags[k]);
    }
  }

  /** Every facet's byte range is a non-empty range inside the text:
      0 <= byteStart < byteEnd <= the text's length in bytes. */
  lemma FacetsInText(t: seq<byte>, resolve: Resolver)
    requires ParseFacets(t, resolve).Success?
    ensures var r := ParseFacets(t, resolve).value;
      forall k :: 0 <= k < |r| ==> r[k].byteStart < r[k].byteEnd <= |t|
  {
    var m := MentionFacets(ParseMentions(t), resolve).value;
    var links := LinkFacets(ParseUrls(t));
    var tags := TagFacets(ParseHashtags(t));
    MentionsInText(t, resolve);
    LinksInText(t);
    TagsInText(t);
    InTextConcat(m, links, t);
    InTextConcat(m + links, tags, t);
    assert ParseFacets(t, resolve).value == m + links + tags;
  }

  // ---------------------------------------------------------------------
  // getRecord, get_reply_refs and get_embed_ref
  // ---------------------------------------------------------------------

  /** A record as repo.getRecord returns it: its URI, its CID, and the
      root URI of value.reply when the record is itself a reply. */
  datatype Record = Record(uri: string, cid: string, replyRoot: Option<string>)

  type Fetcher = UriParts -> Result<Record, PostError>

  /** A com.atproto.repo.strongRef. */
  datatype StrongRef = StrongRef(uri: string, cid: string)

  datatype ReplyRefs = ReplyRefs(root: StrongRef, parent: StrongRef)

  function RefOf(r: Record): StrongRef { StrongRef(r.uri, r.cid) }

  /** parse_uri, then repo.getRecord. */
  function GetRecord(uri: string, getRecord: Fetcher): Result<Record, PostError>
  {
    match ParseUri(uri)
    case Failure(e) => Failure(BadUri(e))
    case Success(parts) => getRecord(parts)
  }

  /** get_reply_refs: the parent is the record replied to; the root is the
      parent's own root when the parent is a reply, else the parent. */
  function GetReplyRefs(parentUri: string, getRecord: Fetcher): (r: Result<ReplyRefs, PostError>)
    ensures r.Success? ==> GetRecord(parentUri, getRecord).Success?
                           && r.value.parent == RefOf(GetRecord(parentUri, getRecord).value)
  {
    var parent :- GetRecord(parentUri, getRecord);
    match parent.replyRoot
    case None => Success(ReplyRefs(RefOf(parent), RefOf(parent)))
    case Some(rootUri) =>
      var root :- GetRecord(rootUri, getRecord);
      Success(ReplyRefs(RefOf(root), RefOf(parent)))
  }

  /** Replying to a top-level post makes it both root and parent; replying
      to a reply keeps the thread's root, fetched from the root URI the
      parent records. Any failure of either fetch ends the run. */
  lemma ReplyRoot(parentUri: string, getRecord: Fetcher)
    ensures var p := GetRecord(parentUri, getRecord);
      && (p.Failure? ==> GetReplyRefs(parentUri, getRecord) == Failure(p.error))
      && (p.Success? && p.value.replyRoot.None? ==>
            GetReplyRefs(parentUri, getRecord) == Success(ReplyRefs(RefOf(p.value), RefOf(p.value))))
      && (p.Success? && p.value.replyRoot.Some? ==>
            var q := GetRecord(p.value.replyRoot.value, getRecord);
            && (q.Failure? ==> GetReplyRefs(parentUri, getRecord) == Failure(q.error))
            && (q.Success? ==> GetReplyRefs(parentUri, getRecord)
                                 == Success(ReplyRefs(RefOf(q.value), RefOf(p.value)))))
  {
  }

  /** A reply to an at:// URI asks getRecord for the parts parse_uri
      reads from it. */
  lemma ReplyFetchesParent(repo: string, collection: string, rkey: string, getRecord: Fetcher)
    requires NoSlash(repo) && NoSlash(collection) && NoSlash(rkey)
    requires getRecord(UriParts(repo, collection, rkey)).Success?
    requires getRecord(UriParts(repo, collection, rkey)).value.replyRoot.None?
    ensures var rec := getRecord(UriParts(repo, collection, rkey)).value;
      GetReplyRefs(Join(["at:", "", repo, collection, rkey], '/'), getRecord)
        == Success(ReplyRefs(RefOf(rec), RefOf(rec)))
  {
    assert Pieces([]);
    AtUriRoundTrip(repo, collection, rkey, []);
    assert ["at:", "", repo, collection, rkey] + [] == ["at:", "", repo, collection, rkey];
  }

  // ---------------------------------------------------------------------
  // upload_images
  // ---------------------------------------------------------------------

  /** The JSON blob object uploadBlob returns, kept as it came. */
  datatype Blob = Blob(json: string)

  /** An image file: its path and its bytes. */
  datatype ImageFile = ImageFile(path: string, data: seq<byte>)

  type Uploader = (string, seq<byte>) -> Result<Blob, PostError>

  datatype EmbedImage = EmbedImage(alt: string, image: Blob)

  const MaxImageSize: nat := 1_000_000

  /** The alt text of the i-th image: the i-th given, or empty when fewer
      are given. */
  function AltFor(alts: seq<string>, i: nat): string
  {
    if i < |alts| then alts[i] else ""
  }

  /** upload_images from the i-th image on: each image is checked against
      the size limit, then uploaded, in order, and the first failure ends
      the run. */
  function UploadFrom(images: seq<ImageFile>, alts: seq<string>, upload: Uploader, i: nat): (r: Result<seq<EmbedImage>, PostError>)
    requires i <= |images|
    ensures r.Success? ==> |r.value| == |images| - i
    decreases |images| - i
  {
    if i == |images| then Success([])
    else if |images[i].data| > MaxImageSize then Failure(ImageTooLarge(|images[i].data|))
    else
      var blob :- upload(images[i].path, images[i].data);
      var rest :- UploadFrom(images, alts, upload, i + 1);
      Success([EmbedImage(AltFor(alts, i), blob)] + rest)
  }

  function UploadImages(images: seq<ImageFile>, alts: seq<string>, upload: Uploader): Result<seq<EmbedImage>, PostError>
  {
    UploadFrom(images, alts, upload, 0)
  }

  /** Every image and its upload succeed, in order, exactly when the
      upload succeeds; then image i carries its blob and the i-th alt
      text, or "" past the end of the alt texts. */
  lemma {:induction false} UploadSpec(images: seq<ImageFile>, alts: seq<string>, upload: Uploader, i: nat)
    requires i <= |images|
    ensures var r := UploadFrom(images, alts, upload, i);
      && (r.Success? <==> forall j :: i <= j < |images| ==>
            |images[j].data| <= MaxImageSize && upload(images[j].path, images[j].data).Success?)
      && (r.Success? ==> forall j :: i <= j < |images| ==>
            r.value[j - i] == EmbedImage(AltFor(alts, j), upload(images[j].path, images[j].data).value))
    decreases |images| - i
  {
    if i < |images| {
      UploadSpec(images, alts, upload, i + 1);
      var r := UploadFrom(images, alts, upload, i);
      if r.Success? {
        var rest := UploadFrom(images, alts, upload, i + 1).value;
        assert r.value == [EmbedImage(AltFor(alts, i), upload(images[i].path, images[i].data).value)] + rest;
      }
    }
  }

  /** The first image over 1,000,000 bytes stops the upload with its size,
      when every image before it uploaded. */
  lemma {:induction false} TooLargeStops(images: seq<ImageFile>, alts: seq<string>, upload: Uploader, i: nat, k: nat)
    requires i <= k < |images| && |images[k].data| > MaxImageSize
    requires forall j :: i <= j < k ==> |images[j].data| <= MaxImageSize && upload(images[j].path, images[j].data).Success?
    ensures UploadFrom(images, alts, upload, i) == Failure(ImageTooLarge(|images[k].data|))
    decreases k - i
  {
    if i < k {
      TooLargeStops(images, alts, upload, i + 1, k);
    }
  }

  // ---------------------------------------------------------------------
  // create_post
  // ---------------------------------------------------------------------

  /** An app.bsky.embed.external card, as the link-card fetch builds it. */
  datatype Card = Card(uri: string, title: string, description: string, thumb: Option<Blob>)

  type CardFetcher = string -> Result<Card, PostError>

  datatype Embed =
    | Images(images: seq<EmbedImage>)
    | External(card: Card)
    | RecordEmbed(record: StrongRef)

  /** get_embed_ref: the strong reference of the quoted record. */
  function GetEmbedRef(refUri: string, getRecord: Fetcher): (r: Result<Embed, PostError>)
    ensures r.Success? <==> GetRecord(refUri, getRecord).Success?
    ensures r.Success? ==> r.value == RecordEmbed(RefOf(GetRecord(refUri, getRecord).value))
  {
    var rec :- GetRecord(refUri, getRecord);
    Success(RecordEmbed(RefOf(rec)))
  }

  /** The command line: an empty string, list or text is an option not
      given, as the source's truth tests read it. */
  datatype Args = Args(
    text: seq<byte>,
    langs: seq<string>,
    replyTo: string,
    images: seq<ImageFile>,
    alts: seq<string>,
    embedUrl: string,
    embedRef: string)

  /** The calls create_post makes on the network. */
  datatype Services = Services(resolve: Resolver, getRecord: Fetcher, upload: Uploader, fetchCard: CardFetcher)

  /** The app.bsky.feed.post record; an absent field is None. */
  datatype Post = Post(
    text: seq<byte>,
    createdAt: string,
    langs: Option<seq<string>>,
    facets: Option<seq<Facet>>,
    reply: Option<ReplyRefs>,
    embed: Option<Embed>)

  function FacetsField(args: Args, env: Services): Result<Option<seq<Facet>>, PostError>
  {
    if |args.text| == 0 then Success(None)
    else
      var fs :- ParseFacets(args.text, env.resolve);
      if |fs| > 0 then Success(Some(fs)) else Success(None)
  }

  function ReplyField(args: Args, env: Services): Result<Option<ReplyRefs>, PostError>
  {
    if args.replyTo == "" then Success(None)
    else
      var refs :- GetReplyRefs(args.replyTo, env.getRecord);
      Success(Some(refs))
  }

  /** The embeds exclude one another: images first, then a link card, then
      a quoted record. */
  function EmbedField(args: Args, env: Services): Result<Option<Embed>, PostError>
  {
    if |args.images| > 0 then
      var imgs :- UploadImages(args.images, args.alts, env.upload);
      Success(Some(Images(imgs)))
    else if args.embedUrl != "" then
      var card :- env.fetchCard(args.embedUrl);
      Success(Some(External(card)))
    else if args.embedRef != "" then
      var e :- GetEmbedRef(args.embedRef, env.getRecord);
      Success(Some(e))
    else Success(None)
  }

  /** The record create_post sends, built in the source's order: facets,
      then the reply, then the embed; the first failure ends the run. */
  function CreatePost(args: Args, now: string, env: Services): Result<Post, PostError>
  {
    var facets :- FacetsField(args, env);
    var reply :- ReplyField(args, env);
    var embed :- EmbedField(args, env);
    Success(Post(args.text, now, if |args.langs| > 0 then Some(args.langs) else None, facets, reply, embed))
  }

  /** The fields of a created post: the text and time as given; languages
      only when some are given; facets only for a non-empty text with at
      least one facet, and then all of them; a reply exactly when replying;
      and the one embed the options choose. */
  lemma PostFields(args: Args, now: string, env: Services)
    requires CreatePost(args, now, env).Success?
    ensures var p := CreatePost(args, now, env).value;
      && p.text == args.text && p.createdAt == now
      && (p.langs.Some? <==> |args.langs| > 0) && (p.langs.Some? ==> p.langs.value == args.langs)
      && (p.facets.Some? <==> |args.text| > 0 && |ParseFacets(args.text, env.resolve).value| > 0)
      && (p.facets.Some? ==> p.facets.value == ParseFacets(args.text, env.resolve).value)
      && (p.reply.Some? <==> args.replyTo != "")
      && (p.reply.Some? ==> Success(p.reply.value) == GetReplyRefs(args.replyTo, env.getRecord))
      && (p.embed.Some? <==> |args.images| > 0 || args.embedUrl != "" || args.embedRef != "")
      && (|args.images| > 0 ==> p.embed == Some(Images(UploadImages(args.images, args.alts, env.upload).value)))
      && (|args.images| == 0 && args.embedUrl != "" ==>
            p.embed == Some(External(env.fetchCard(args.embedUrl).value)))
      && (|args.images| == 0 && args.embedUrl == "" && args.embedRef != "" ==>
            p.embed == Some(GetEmbedRef(args.embedRef, env.getRecord).value))
  {
  }

  /** A post fails for the first step that fails: an unresolvable mention
      before a bad reply target, and that before a failing embed. */
  lemma PostFailsFirst(args: Args, now: string, env: Services)
    ensures FacetsField(args, env).Failure? ==>
              CreatePost(args, now, env) == Failure(FacetsField(args, env).error)
    ensures FacetsField(args, env).Success? && ReplyField(args, env).Failure? ==>
              CreatePost(args, now, env) == Failure(ReplyField(args, env).error)
    ensures FacetsField(args, env).Success? && ReplyField(args, env).Success? && EmbedField(args, env).Failure? ==>
              CreatePost(args, now, env) == Failure(EmbedField(args, env).error)
    ensures CreatePost(args, now, env).Success? <==>
              FacetsField(args, env).Success? && ReplyField(args, env).Success? && EmbedField(args, env).Success?
  {
  }

  /** An image over the size limit fails the post even when a link card or
      quoted record is also given: the images take precedence. */
  lemma OversizeImageFailsPost(args: Args, now: string, env: Services, k: nat)
    requires FacetsField(args, env).Success? && ReplyField(args, env).Success?
    requires k < |args.images| && |args.images[k].data| > MaxImageSize
    requires forall j :: 0 <= j < k ==> |args.images[j].data| <= MaxImageSize
                                        && env.upload(args.images[j].path, args.images[j].data).Success?
    ensures CreatePost(args, now, env) == Failure(ImageTooLarge(|args.images[k].data|))
  {
    TooLargeStops(args.images, args.alts, env.upload, 0, k);
  }
}

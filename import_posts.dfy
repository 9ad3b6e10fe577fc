// The one-off import of WordPress posts into the CMS: each post's category
// is read off its WordPress category ids, a post already imported under its
// raw or decoded slug is only re-tagged, and a new post is stored with its
// paragraphs, its tag-free excerpt and, when its image can be fetched, a
// media document named after the image file. Pages are fetched one after
// the other until the last page or the first failure.
//
// The WordPress API and the CMS are not called: the replies of the API for
// pages 1, 2, ... are an input sequence, the outcome of each image download
// is a field of the post, and the CMS collections are values threaded
// through the import. URL decoding and HTML parsing are inputs too: a post
// carries its decoded slug (none when decoding throws) and the text of
// each of its `<p>` elements.

module ImportPosts {
  import opened Wrappers
  import opened Strings
  import Collections

  // ---------------------------------------------------------------------
  // Category
  // ---------------------------------------------------------------------

  datatype Category = News | Event | Article

  /**
   * WordPress categories 69 and 185 are news, 74, 91 and 79 are events;
   * news wins over event, and everything else is an article.
   */
  function CategoryOf(categories: seq<int>): (c: Category)
    ensures c == News <==> 69 in categories || 185 in categories
    ensures c == Event <==> !(69 in categories || 185 in categories)
                            && (74 in categories || 91 in categories || 79 in categories)
    ensures c == Article <==> forall id :: id in categories ==> id !in {69, 185, 74, 91, 79}
  {
    if |categories| > 0 then
      if 69 in categories || 185 in categories then News
      else if 74 in categories || 91 in categories || 79 in categories then Event
      else Article
    else Article
  }

  // ---------------------------------------------------------------------
  // Excerpt: every match of /<[^>]*>?/ removed
  // ---------------------------------------------------------------------

  /** What follows a tag opened just before `t`: everything after its first `>`, or nothing when it is never closed. */
  function AfterTag(t: string): (r: string)
    ensures |r| <= |t| && r == t[|t| - |r|..]
  {
    if t == [] then []
    else if t[0] == '>' then t[1..]
    else AfterTag(t[1..])
  }

  /** The excerpt with every tag removed: a `<` up to and including the next `>`, or to the end. */
  function StripTags(s: string): (r: string)
    ensures Free(r, '<')
    ensures |r| <= |s|
    decreases |s|
  {
    if s == [] then []
    else if s[0] == '<' then StripTags(AfterTag(s[1..]))
    else [s[0]] + StripTags(s[1..])
  }

  /** Text without tags is kept as it is. */
  lemma {:induction false} StripPlain(s: string)
    requires Free(s, '<')
    ensures StripTags(s) == s
    decreases |s|
  {
    if s != [] {
      StripPlain(s[1..]);
    }
  }

  /** Stripping twice is stripping once. */
  lemma StripIdempotent(s: string)
    ensures StripTags(StripTags(s)) == StripTags(s)
  {
    StripPlain(StripTags(s));
  }

  /** Plain text before a tag is kept and the whole tag, `>` included, is dropped. */
  lemma {:induction false} StripClosedTag(pre: string, tag: string, post: string)
    requires Free(pre, '<') && Free(tag, '>')
    ensures StripTags(pre + "<" + tag + ">" + post) == pre + StripTags(post)
    decreases |pre|
  {
    if pre == [] {
      assert pre + "<" + tag + ">" + post == "<" + (tag + (">" + post));
      StripTagHead(tag, post);
    } else {
      var rest := pre[1..] + "<" + tag + ">" + post;
      assert pre + "<" + tag + ">" + post == [pre[0]] + rest;
      StripPlainHead(pre[0], rest);
      StripClosedTag(pre[1..], tag, post);
      assert [pre[0]] + (pre[1..] + StripTags(post)) == pre + StripTags(post);
    }
  }

  lemma StripPlainHead(c: char, rest: string)
    requires c != '<'
    ensures StripTags([c] + rest) == [c] + StripTags(rest)
  {
    assert ([c] + rest)[1..] == rest;
  }

  lemma StripTagHead(tag: string, post: string)
    requires Free(tag, '>')
    ensures StripTags("<" + (tag + (">" + post))) == StripTags(post)
  {
    var s := "<" + (tag + (">" + post));
    assert s[0] == '<' && s[1..] == tag + (">" + post);
    SkipToClose(tag, post);
  }

  lemma {:induction false} SkipToClose(tag: string, post: string)
    requires Free(tag, '>')
    ensures AfterTag(tag + (">" + post)) == post
    decreases |tag|
  {
    if tag == [] {
      assert tag + (">" + post) == ">" + post;
    } else {
      assert (tag + (">" + post))[1..] == tag[1..] + (">" + post);
      SkipToClose(tag[1..], post);
    }
  }

  /** A tag that is never closed takes the rest of the excerpt with it. */
  lemma {:induction false} StripUnclosedTag(pre: string, tail: string)
    requires Free(pre, '<') && Free(tail, '>')
    ensures StripTags(pre + "<" + tail) == pre
    decreases |pre|
  {
    if pre == [] {
      var s := "<" + tail;
      assert s[1..] == tail;
      SkipUnclosed(tail);
      assert pre == [];
    } else {
      var s := pre + "<" + tail;
      assert s[0] == pre[0] && s[1..] == pre[1..] + "<" + tail;
      StripUnclosedTag(pre[1..], tail);
      assert [pre[0]] + pre[1..] == pre;
    }
  }

  lemma {:induction false} SkipUnclosed(tail: string)
    requires Free(tail, '>')
    ensures AfterTag(tail) == []
    decreases |tail|
  {
    if tail != [] {
      SkipUnclosed(tail[1..]);
    }
  }

  // ---------------------------------------------------------------------
  // Content: one paragraph node per non-empty paragraph text
  // ---------------------------------------------------------------------

  /** A rich-text text node in normal mode, unformatted. */
  datatype TextNode = TextNode(text: string)

  /** A rich-text paragraph. */
  datatype ParagraphNode = ParagraphNode(children: seq<TextNode>)

  predicate NonEmpty(s: string) {
    s != []
  }

  /** The paragraphs of a post: empty paragraph texts are dropped, each other text becomes a paragraph holding that text. */
  function ContentNodes(texts: seq<string>): (r: seq<ParagraphNode>)
    ensures |r| == |Collections.Filter(texts, NonEmpty)|
    ensures forall i :: 0 <= i < |r| ==>
              r[i] == ParagraphNode([TextNode(Collections.Filter(texts, NonEmpty)[i])])
  {
    if texts == [] then []
    else if texts[0] != [] then [ParagraphNode([TextNode(texts[0])])] + ContentNodes(texts[1..])
    else ContentNodes(texts[1..])
  }

  /** The text of every paragraph node. */
  function NodeTexts(nodes: seq<ParagraphNode>): seq<string>
    requires forall i :: 0 <= i < |nodes| ==> |nodes[i].children| == 1
  {
    seq(|nodes|, i requires 0 <= i < |nodes| => nodes[i].children[0].text)
  }

  /** Reading the texts back gives the non-empty paragraph texts, in their order, none of them empty. */
  lemma ContentTexts(texts: seq<string>)
    ensures var nodes := ContentNodes(texts);
            (forall i :: 0 <= i < |nodes| ==> |nodes[i].children| == 1)
            && NodeTexts(nodes) == Collections.Filter(texts, NonEmpty)
            && forall i :: 0 <= i < |nodes| ==> nodes[i].children[0].text != []
  {
    var nodes := ContentNodes(texts);
    var kept := Collections.Filter(texts, NonEmpty);
    Collections.FilterKeeps(texts, NonEmpty);
    assert forall i :: 0 <= i < |nodes| ==> nodes[i].children[0].text == kept[i];
  }

  // ---------------------------------------------------------------------
  // Image file name: the basename of the URL before its first '?'
  // ---------------------------------------------------------------------

  /** `p` without its trailing slashes. */
  function TrimTrailingSlashes(p: string): (r: string)
    ensures |r| <= |p| && r == p[..|r|]
    ensures r == [] || r[|r| - 1] != '/'
  {
    if p != [] && p[|p| - 1] == '/' then TrimTrailingSlashes(p[..|p| - 1]) else p
  }

  /** The part of `p` after its last slash. */
  function AfterLastSlash(p: string): (r: string)
    ensures Free(r, '/')
    ensures |r| <= |p| && r == p[|p| - |r|..]
  {
    if p == [] || p[|p| - 1] == '/' then [] else AfterLastSlash(p[..|p| - 1]) + [p[|p| - 1]]
  }

  /** POSIX `path.basename`: the last component, trailing slashes ignored. */
  function Basename(p: string): string {
    AfterLastSlash(TrimTrailingSlashes(p))
  }

  /** The name given to an uploaded image. */
  function ImageFilename(url: string): (r: string)
    ensures Free(r, '/') && Free(r, '?')
  {
    var path := SplitOn(url, '?')[0];
    FirstPieceFree(url, '?');
    var t := TrimTrailingSlashes(path);
    assert Free(t, '?');
    Basename(path)
  }

  lemma {:induction false} FirstPieceFree(s: string, c: char)
    ensures Free(SplitOn(s, c)[0], c)
    decreases |s|
  {
    if s != [] {
      FirstPieceFree(s[1..], c);
    }
  }

  /** The file name of `dir/name?query` (or of `dir/name`) is `name`. */
  lemma ImageFilenameOf(dir: string, name: string, query: string)
    requires Free(dir, '?') && name != [] && Free(name, '/') && Free(name, '?')
    requires query == [] || query[0] == '?'
    ensures ImageFilename(dir + "/" + name + query) == name
  {
    var path := dir + "/" + name;
    assert Free(path, '?');
    SplitFree(path, query, '?');
    assert SplitOn(query, '?')[0] == [] by {
      if query != [] {
        assert query[0] == '?';
      }
    }
    assert path + [] == path;
    assert SplitOn(dir + "/" + name + query, '?')[0] == path;
    LastComponent(dir + "/", name);
  }

  lemma {:induction false} LastComponent(front: string, name: string)
    requires front != [] && front[|front| - 1] == '/'
    requires name != [] && Free(name, '/')
    ensures Basename(front + name) == name
    decreases |name|
  {
    var p := front + name;
    assert TrimTrailingSlashes(p) == p;
    AfterSlash(front, name);
  }

  lemma {:induction false} AfterSlash(front: string, name: string)
    requires front != [] && front[|front| - 1] == '/'
    requires Free(name, '/')
    ensures AfterLastSlash(front + name) == name
    decreases |name|
  {
    if name == [] {
      assert front + name == front;
    } else {
      var p := front + name;
      var init := name[..|name| - 1];
      assert p != [] && p[|p| - 1] == name[|name| - 1] && p[|p| - 1] != '/';
      assert p[..|p| - 1] == front + init;
      assert AfterLastSlash(p) == AfterLastSlash(front + init) + [name[|name| - 1]];
      AfterSlash(front, init);
      assert name[..|name| - 1] + [name[|name| - 1]] == name;
    }
  }

  // ---------------------------------------------------------------------
  // Posts and the CMS collections
  // ---------------------------------------------------------------------

  /** A post's featured image: its URL, alt text, MIME type, and whether fetching or uploading it throws. */
  datatype Media = Media(sourceUrl: Option<string>, altText: Option<string>, mimeType: string, fails: bool)

  /** A WordPress post as the API returns it, with its slug decoded and its paragraphs read out. */
  datatype WpPost = WpPost(
    slug: string,
    decodedSlug: Option<string>,
    title: string,
    date: string,
    link: string,
    categories: seq<int>,
    featuredMedia: Option<Media>,
    paragraphTexts: seq<string>,
    excerptHtml: string)

  /** A document of the posts collection. */
  datatype Doc = Doc(
    slug: string,
    category: Category,
    title: string,
    publishedDate: string,
    content: seq<ParagraphNode>,
    featuredImage: Option<nat>,
    excerpt: string,
    originalUrl: string)

  /** A document of the media collection; its id is its position. */
  datatype MediaDoc = MediaDoc(alt: string, filename: string, mimeType: string)

  datatype Log = Info(message: string) | Error(message: string)

  /** The posts and media collections and the import log. */
  datatype Store = Store(posts: seq<Doc>, media: seq<MediaDoc>, log: seq<Log>)

  /** The decoded slug, or the raw one when decoding throws. */
  function CleanSlug(p: WpPost): (r: string)
    ensures p.decodedSlug.None? ==> r == p.slug
    ensures p.decodedSlug.Some? ==> r == p.decodedSlug.value
  {
    p.decodedSlug.GetOr(p.slug)
  }

  /** The first stored post under either slug. */
  function FirstMatch(posts: seq<Doc>, clean: string, raw: string): (r: Option<nat>)
    ensures r.Some? ==> r.value < |posts| && posts[r.value].slug in {clean, raw}
                        && forall j :: 0 <= j < r.value ==> posts[j].slug !in {clean, raw}
    ensures r.None? ==> forall j :: 0 <= j < |posts| ==> posts[j].slug !in {clean, raw}
  {
    if posts == [] then None
    else if posts[0].slug == clean || posts[0].slug == raw then Some(0)
    else match FirstMatch(posts[1..], clean, raw)
      case None => None
      case Some(k) => Some(k + 1)
  }

  /** `media.alt_text || post.title.rendered`. */
  function AltText(m: Media, title: string): string {
    if m.altText.Some? && m.altText.value != [] then m.altText.value else title
  }

  const ImageFailure := "Failed to download/upload image for post "
  const Imported := "Imported post: "
  const PageFailure := "Error on page "

  /** The media collection, the image id and the log after handling a new post's featured image. */
  datatype Upload = Upload(media: seq<MediaDoc>, image: Option<nat>, log: seq<Log>)

  /**
   * The featured image of a new post: uploaded as the next media document
   * when it has a non-empty URL and fetching it succeeds; a failure is
   * logged and leaves the post without an image.
   */
  function FeaturedImage(st: Store, p: WpPost): (r: Upload)
  {
    match p.featuredMedia
    case None => Upload(st.media, None, st.log)
    case Some(m) =>
      if m.sourceUrl.None? || m.sourceUrl.value == [] then Upload(st.media, None, st.log)
      else if m.fails then Upload(st.media, None, st.log + [Error(ImageFailure + p.slug)])
      else
        var doc := MediaDoc(AltText(m, p.title), ImageFilename(m.sourceUrl.value), m.mimeType);
        Upload(st.media + [doc], Some(|st.media|), st.log)
  }

  /** The new document for a post. */
  function NewDoc(p: WpPost, image: Option<nat>): Doc {
    Doc(CleanSlug(p), CategoryOf(p.categories), p.title, p.date,
        ContentNodes(p.paragraphTexts), image, StripTags(p.excerptHtml), p.link)
  }

  /**
   * One post of a page: re-tag the post stored under its slug, or store it
   * as new. The first document stored under either slug now carries the
   * clean slug; with none, a document under the clean slug is appended.
   */
  function ImportPost(st: Store, p: WpPost): (r: Store)
    ensures var m := FirstMatch(st.posts, CleanSlug(p), p.slug);
            if m.Some? then |r.posts| == |st.posts| && r.posts[m.value].slug == CleanSlug(p)
            else |r.posts| == |st.posts| + 1 && r.posts[|st.posts|].slug == CleanSlug(p)
  {
    var clean := CleanSlug(p);
    match FirstMatch(st.posts, clean, p.slug)
    case Some(i) =>
      st.(posts := st.posts[i := st.posts[i].(slug := clean, category := CategoryOf(p.categories))])
    case None =>
      var u := FeaturedImage(st, p);
      Store(st.posts + [NewDoc(p, u.image)], u.media, u.log + [Info(Imported + p.title)])
  }

  /**
   * A post already stored under its decoded or raw slug gets only its slug
   * and category rewritten: no document is added, no other document and no
   * other field changes, nothing is uploaded and nothing is logged.
   */
  lemma ExistingPostOnlyRetagged(st: Store, p: WpPost, i: nat)
    requires i < |st.posts| && st.posts[i].slug in {CleanSlug(p), p.slug}
    requires forall j :: 0 <= j < i ==> st.posts[j].slug !in {CleanSlug(p), p.slug}
    ensures var r := ImportPost(st, p);
            && |r.posts| == |st.posts| && r.media == st.media && r.log == st.log
            && (forall j :: 0 <= j < |st.posts| && j != i ==> r.posts[j] == st.posts[j])
            && r.posts[i].slug == CleanSlug(p) && r.posts[i].category == CategoryOf(p.categories)
            && r.posts[i].(slug := st.posts[i].slug, category := st.posts[i].category) == st.posts[i]
  {
    var m := FirstMatch(st.posts, CleanSlug(p), p.slug);
    assert m == Some(i);
  }

  /**
   * A post not yet stored is appended, after the stored ones, under its
   * clean slug and category, with a tag-free excerpt and its non-empty
   * paragraphs; the log gains at most an image error and then ends with
   * the import notice.
   */
  lemma NewPostAppended(st: Store, p: WpPost)
    requires forall j :: 0 <= j < |st.posts| ==> st.posts[j].slug !in {CleanSlug(p), p.slug}
    ensures var r := ImportPost(st, p);
            var d := r.posts[|r.posts| - 1];
            && |r.posts| == |st.posts| + 1 && r.posts[..|st.posts|] == st.posts
            && d.slug == CleanSlug(p) && d.category == CategoryOf(p.categories)
            && Free(d.excerpt, '<') && d.title == p.title && d.originalUrl == p.link
            && |d.content| == |Collections.Filter(p.paragraphTexts, NonEmpty)|
            && d.content == ContentNodes(p.paragraphTexts)
            && d.excerpt == StripTags(p.excerptHtml) && d.publishedDate == p.date
            && r.log[|r.log| - 1] == Info(Imported + p.title)
            && (|r.log| == |st.log| + 1 || |r.log| == |st.log| + 2)
            && r.log[..|st.log|] == st.log
            && (d.featuredImage.Some? <==> |r.media| == |st.media| + 1)
            && (d.featuredImage.Some? ==> d.featuredImage.value == |st.media| && r.media[..|st.media|] == st.media)
            && (d.featuredImage.None? ==> r.media == st.media)
  {
    var r := ImportPost(st, p);
    assert FirstMatch(st.posts, CleanSlug(p), p.slug).None?;
    assert r.posts[..|st.posts|] == st.posts;
    var u := FeaturedImage(st, p);
    assert u.log[..|st.log|] == st.log;
    assert r.log[..|st.log|] == u.log[..|st.log|];
  }

  /**
   * The posts of one page, in order: each adds at most one document, and
   * a stored document is never removed.
   */
  function ImportPage(st: Store, posts: seq<WpPost>): (r: Store)
    ensures |st.posts| <= |r.posts| <= |st.posts| + |posts|
    decreases |posts|
  {
    if posts == [] then st else ImportPost(ImportPage(st, posts[..|posts| - 1]), posts[|posts| - 1])
  }

  /** Importing one more post of a page. */
  lemma ImportPageSnoc(st: Store, posts: seq<WpPost>, i: nat)
    requires i < |posts|
    ensures ImportPage(st, posts[..i + 1]) == ImportPost(ImportPage(st, posts[..i]), posts[i])
  {
    assert posts[..i + 1][..i] == posts[..i];
  }

  // ---------------------------------------------------------------------
  // The page loop
  // ---------------------------------------------------------------------

  /** The reply for one page: its `x-wp-totalpages` header and its posts, or a failure. */
  datatype PageReply = Page(totalPagesHeader: Option<string>, posts: seq<WpPost>) | FetchFailed

  /** The reply for `page`; a page past the last reply fails. */
  function Fetch(replies: seq<PageReply>, page: nat): (r: PageReply)
    ensures r.Page? ==> 1 <= page <= |replies|
  {
    if 1 <= page <= |replies| then replies[page - 1] else FetchFailed
  }

  /** The longest prefix of digits. */
  function LeadingDigits(s: string): (r: string)
    ensures AllDigits(r) && |r| <= |s| && r == s[..|r|]
    ensures |r| < |s| ==> !IsDigit(s[|r|])
  {
    if s != [] && IsDigit(s[0]) then [s[0]] + LeadingDigits(s[1..]) else []
  }

  /** `parseInt(header || '1', 10)`: `None` stands for NaN. */
  function TotalPages(header: Option<string>): (r: Option<nat>)
    ensures header.None? || header.value == [] ==> r == Some(1)
    ensures header.Some? && header.value != [] && !IsDigit(header.value[0]) ==> r.None?
  {
    var text := if header.None? || header.value == [] then "1" else header.value;
    var digits := LeadingDigits(text);
    assert text == "1" ==> digits == "1" by {
      if text == "1" {
        assert IsDigit(text[0]) && text[1..] == [];
      }
    }
    if digits == [] then None else Some(DecimalValue(digits))
  }

  /** Whether the loop goes on after `page`: `page + 1 <= totalPages`, false for NaN. */
  function MorePages(total: Option<nat>, page: nat): (r: bool)
    ensures total.None? ==> !r
    ensures total.Some? ==> (r <==> page < total.value)
  {
    total.Some? && page + 1 <= total.value
  }

  /**
   * How the posts of one fetched page change the store. The page loop is
   * generic in it, so that the proofs about the loop do not see how a post
   * is imported; the script's own step is `ImportPageStep`.
   */
  type PageStep = (Store, seq<WpPost>) -> Store

  /** The step of the script: the page's posts imported in order. */
  function ImportPageStep(): PageStep {
    (st: Store, posts: seq<WpPost>) => ImportPage(st, posts)
  }

  /** What the loop does from `page` on: the final store and the last page fetched or attempted. */
  function ImportFrom(replies: seq<PageReply>, page: nat, st: Store, importPage: PageStep): (r: (Store, nat))
    requires page >= 1
    ensures page <= r.1 && (r.1 == page || r.1 <= |replies| + 1)
    decreases |replies| + 1 - page
  {
    match Fetch(replies, page)
    case FetchFailed =>
      (st.(log := st.log + [Error(PageFailure + NatToDecimal(page))]), page)
    case Page(header, posts) =>
      var next := importPage(st, posts);
      if MorePages(TotalPages(header), page) then ImportFrom(replies, page + 1, next, importPage) else (next, page)
  }

  /** Page `q` was fetched and announced a later page. */
  predicate Continues(replies: seq<PageReply>, q: nat) {
    Fetch(replies, q).Page? && MorePages(TotalPages(Fetch(replies, q).totalPagesHeader), q)
  }

  /** A fetched page that announces a later page goes on with the next page. */
  lemma ImportFromContinues(replies: seq<PageReply>, page: nat, st: Store, importPage: PageStep)
    requires page >= 1 && Continues(replies, page)
    ensures ImportFrom(replies, page, st, importPage)
         == ImportFrom(replies, page + 1, importPage(st, Fetch(replies, page).posts), importPage)
  {
  }

  /** A fetched page that announces no later page ends the loop there. */
  lemma ImportFromStops(replies: seq<PageReply>, page: nat, st: Store, importPage: PageStep)
    requires page >= 1 && Fetch(replies, page).Page? && !Continues(replies, page)
    ensures ImportFrom(replies, page, st, importPage) == (importPage(st, Fetch(replies, page).posts), page)
  {
  }

  /** A failed page ends the loop with its error logged. */
  lemma ImportFromFails(replies: seq<PageReply>, page: nat, st: Store, importPage: PageStep)
    requires page >= 1 && Fetch(replies, page).FetchFailed?
    ensures ImportFrom(replies, page, st, importPage) == (st.(log := st.log + [Error(PageFailure + NatToDecimal(page))]), page)
  {
  }

  /** Every page the loop passes was fetched and announced a later page. */
  lemma {:induction false} PagesBeforeLastFetched(replies: seq<PageReply>, page: nat, st: Store, importPage: PageStep)
    requires page >= 1
    ensures var last := ImportFrom(replies, page, st, importPage).1;
            forall q :: page <= q < last ==> Continues(replies, q)
    decreases |replies| + 1 - page
  {
    if Continues(replies, page) {
      ImportFromContinues(replies, page, st, importPage);
      PagesBeforeLastFetched(replies, page + 1, importPage(st, Fetch(replies, page).posts), importPage);
    } else if Fetch(replies, page).FetchFailed? {
      ImportFromFails(replies, page, st, importPage);
    } else {
      ImportFromStops(replies, page, st, importPage);
    }
  }

  /** The loop stops at the first failure or at the last announced page, whichever comes first. */
  lemma {:induction false} StopsAtFirstFailure(replies: seq<PageReply>, page: nat, st: Store, importPage: PageStep)
    requires page >= 1
    ensures var last := ImportFrom(replies, page, st, importPage).1;
            Fetch(replies, last).FetchFailed?
            || !MorePages(TotalPages(Fetch(replies, last).totalPagesHeader), last)
    decreases |replies| + 1 - page
  {
    if Continues(replies, page) {
      ImportFromContinues(replies, page, st, importPage);
      StopsAtFirstFailure(replies, page + 1, importPage(st, Fetch(replies, page).posts), importPage);
    } else if Fetch(replies, page).FetchFailed? {
      ImportFromFails(replies, page, st, importPage);
    } else {
      ImportFromStops(replies, page, st, importPage);
    }
  }

  /** When the loop ended on a failed page, that failure is the last entry of the log. */
  predicate FailureIsLast(replies: seq<PageReply>, res: (Store, nat)) {
    Fetch(replies, res.1).FetchFailed? ==>
      |res.0.log| > 0 && res.0.log[|res.0.log| - 1] == Error(PageFailure + NatToDecimal(res.1))
  }

  /** A failed page is logged as the last entry, and no later page is fetched. */
  lemma {:induction false} FailureLoggedLast(replies: seq<PageReply>, page: nat, st: Store, importPage: PageStep)
    requires page >= 1
    ensures FailureIsLast(replies, ImportFrom(replies, page, st, importPage))
    decreases |replies| + 1 - page
  {
    if Fetch(replies, page).FetchFailed? {
      FailedPageLoggedLast(replies, page, st, importPage);
    } else if Continues(replies, page) {
      ImportFromContinues(replies, page, st, importPage);
      FailureLoggedLast(replies, page + 1, importPage(st, Fetch(replies, page).posts), importPage);
    } else {
      ImportFromStops(replies, page, st, importPage);
      assert Fetch(replies, ImportFrom(replies, page, st, importPage).1).Page?;
    }
  }

  lemma FailedPageLoggedLast(replies: seq<PageReply>, page: nat, st: Store, importPage: PageStep)
    requires page >= 1 && Fetch(replies, page).FetchFailed?
    ensures FailureIsLast(replies, ImportFrom(replies, page, st, importPage))
  {
    ImportFromFails(replies, page, st, importPage);
    var log := st.log + [Error(PageFailure + NatToDecimal(page))];
    assert log[|log| - 1] == Error(PageFailure + NatToDecimal(page));
  }

  /** When every page answers and announces `n` pages, all `n` pages are fetched. */
  lemma {:induction false} AllPagesFetched(replies: seq<PageReply>, page: nat, st: Store, importPage: PageStep)
    requires 1 <= page <= |replies|
    requires forall q :: 0 <= q < |replies| ==>
               replies[q].Page? && replies[q].totalPagesHeader == Some(NatToDecimal(|replies|))
    ensures ImportFrom(replies, page, st, importPage).1 == |replies|
    decreases |replies| + 1 - page
  {
    TotalPagesOfDecimal(|replies|);
    if page < |replies| {
      ImportFromContinues(replies, page, st, importPage);
      AllPagesFetched(replies, page + 1, importPage(st, replies[page - 1].posts), importPage);
    } else {
      ImportFromStops(replies, page, st, importPage);
    }
  }

  lemma TotalPagesOfDecimal(n: nat)
    ensures TotalPages(Some(NatToDecimal(n))) == Some(n)
  {
    var d := NatToDecimal(n);
    AllDigitsPrefix(d);
    DecimalRoundTrip(n);
  }

  lemma {:induction false} AllDigitsPrefix(s: string)
    requires AllDigits(s)
    ensures LeadingDigits(s) == s
    decreases |s|
  {
    if s != [] {
      AllDigitsPrefix(s[1..]);
    }
  }

  /**
   * `importPosts`: pages 1, 2, ... are fetched while the page number does
   * not pass the total the last reply announced; a failed fetch is logged
   * and ends the import.
   */
  method ImportAll(replies: seq<PageReply>, initial: Store) returns (st: Store, lastPage: nat)
    ensures (st, lastPage) == ImportFrom(replies, 1, initial, ImportPageStep())
  {
    var page: nat := 1;
    var totalPages: Option<nat> := Some(1);
    st := initial;
    while true
      invariant page >= 1
      invariant ImportFrom(replies, 1, initial, ImportPageStep()) == ImportFrom(replies, page, st, ImportPageStep())
      decreases |replies| + 1 - page
    {
      var reply := Fetch(replies, page);
      if reply.FetchFailed? {
        ImportFromFails(replies, page, st, ImportPageStep());
        st := st.(log := st.log + [Error(PageFailure + NatToDecimal(page))]);
        lastPage := page;
        return;
      }
      totalPages := TotalPages(reply.totalPagesHeader);
      var i := 0;
      var start := st;
      while i < |reply.posts|
        invariant 0 <= i <= |reply.posts|
        invariant st == ImportPage(start, reply.posts[..i])
      {
        ImportPageSnoc(start, reply.posts, i);
        st := ImportPost(st, reply.posts[i]);
        i := i + 1;
      }
      assert reply.posts[..i] == reply.posts;
      assert st == ImportPageStep()(start, reply.posts);
      if !MorePages(totalPages, page) {
        ImportFromStops(replies, page, start, ImportPageStep());
        lastPage := page;
        return;
      }
      ImportFromContinues(replies, page, start, ImportPageStep());
      page := page + 1;
    }
  }
}

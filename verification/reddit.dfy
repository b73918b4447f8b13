/**
 The `reddit` command of cogs/reddit.py: normalising the subreddit argument,
 the checks on the subreddit's "about" data, the loop that filters a
 listing's posts into at most twenty pages, how each post's image and video
 links are chosen, and the paging that keeps fifteen of them.

 The HTTP requests are not modelled: the "about" data and the listing's
 posts are inputs, already decoded from JSON. `textwrap.shorten` is not
 modelled either: titles and texts are kept whole.
 */
module Reddit {
  import opened Outcomes
  import opened Strings
  import opened Numerals

  /* ---------------------------------------------------------------------- */
  /* The subreddit argument                                                  */
  /* ---------------------------------------------------------------------- */

  /** The argument without one leading `/` and then one leading `r/`, the
      optional groups of the pattern `/?(r/)?(?P<subname>.*)`. */
  function AfterSubredditPrefix(arg: string): string {
    var a := if StartsWith(arg, "/") then arg[1..] else arg;
    if StartsWith(a, "r/") then a[2..] else a
  }

  /** What `.*` matches: everything up to the first newline. */
  function UpToNewline(s: string): (r: string)
    ensures '\n' !in r
    ensures StartsWith(s, r)
    ensures |r| < |s| ==> s[|r|] == '\n'
    decreases |s|
  {
    if |s| == 0 || s[0] == '\n' then []
    else [s[0]] + UpToNewline(s[1..])
  }

  /** `_reddit`: the `subname` group replaces the argument when it is not
      empty. A replaced name is a non-empty, newline-free piece of the
      argument. */
  function NormalizeSubreddit(arg: string): (r: string)
    ensures r == arg || (|r| > 0 && '\n' !in r && Contains(arg, r))
  {
    var a := if StartsWith(arg, "/") then arg[1..] else arg;
    var skip := (if StartsWith(arg, "/") then 1 else 0) + (if StartsWith(a, "r/") then 2 else 0);
    var name := UpToNewline(AfterSubredditPrefix(arg));
    assert AfterSubredditPrefix(arg) == arg[skip..];
    if |name| > 0 then
      assert arg[skip..][..|name|] == name;
      assert OccursAt(arg, name, skip);
      ContainsAt(arg, name, skip);
      name
    else arg
  }

  lemma {:induction false} UpToNewlineWhole(s: string)
    requires '\n' !in s
    ensures UpToNewline(s) == s
    decreases |s|
  {
    if |s| > 0 {
      UpToNewlineWhole(s[1..]);
      assert s == [s[0]] + s[1..];
    }
  }

  /** `/r/x`, `r/x` and `x` all name the subreddit `x`, as does `/x`. */
  lemma NormalizeForms(x: string)
    requires |x| > 0 && '\n' !in x
    ensures NormalizeSubreddit("r/" + x) == x
    ensures NormalizeSubreddit("/r/" + x) == x
    ensures !StartsWith(x, "/") && !StartsWith(x, "r/") ==> NormalizeSubreddit(x) == x
    ensures !StartsWith(x, "r/") ==> NormalizeSubreddit("/" + x) == x
  {
    UpToNewlineWhole(x);
    AfterRPrefix(x);
    assert ("/r/" + x)[..1] == "/" && ("/r/" + x)[1..] == "r/" + x;
    assert ("/" + x)[..1] == "/" && ("/" + x)[1..] == x;
  }

  /** The part after a leading `r/`, with no leading `/` before it. */
  lemma AfterRPrefix(y: string)
    ensures AfterSubredditPrefix("r/" + y) == y
  {
    assert ("r/" + y)[..1] == "r" && ("r/" + y)[..2] == "r/" && ("r/" + y)[2..] == y;
  }

  /** When nothing is left after the prefixes (or it starts with a newline),
      the argument is kept as it was typed. */
  lemma NormalizeKeepsBareArguments()
    ensures NormalizeSubreddit("/") == "/"
    ensures NormalizeSubreddit("r/") == "r/"
    ensures NormalizeSubreddit("/r/") == "/r/"
    ensures NormalizeSubreddit("") == ""
  {
    assert "/r/"[1..] == "r/";
    assert "r/"[..2] == "r/" && "r/"[2..] == "";
  }

  /** The prefixes are stripped once only: `r/r/x` names the subreddit
      `r/x`. */
  lemma NormalizeStripsOnce(x: string)
    requires '\n' !in x
    ensures NormalizeSubreddit("r/r/" + x) == "r/" + x
  {
    var y := "r/" + x;
    assert "r/r/" + x == "r/" + y;
    AfterRPrefix(y);
    assert '\n' !in y by {
      forall i | 0 <= i < |y|
        ensures y[i] != '\n'
      {
        if i >= 2 {
          assert y[i] == x[i - 2];
        }
      }
    }
    UpToNewlineWhole(y);
  }

  /* ---------------------------------------------------------------------- */
  /* The "about" checks and the listing request                              */
  /* ---------------------------------------------------------------------- */

  /** The decoded `about.json`: either without a `data` object, or with one
      whose `over18` entry is truthy or not. */
  datatype About = NoData | AboutData(over18: bool)

  /** Why the command ends without pages. */
  datatype SearchError =
    | SubredditNotFound    // `BadArgument("Subreddit not found.")`
    | NsfwChannelRequired  // `NSFWChannelRequired(channel)`
    | BadSubreddit         // `BadArgument("Bad subreddit.")`: no pages at all

  const NsfwReply: string := "This ain't an NSFW channel."
  const NoPostsReply: string :=
    "There seems to be no Reddit posts to show, common cases are:\n- Not a real subreddit.\n"

  /** `reddit_error`: the NSFW error has its own reply; both `BadArgument`s
      share one. */
  function ErrorReply(e: SearchError): (r: string)
    ensures r == NsfwReply <==> e.NsfwChannelRequired?
    ensures !e.NsfwChannelRequired? ==> r == NoPostsReply
  {
    match e
    case NsfwChannelRequired => NsfwReply
    case SubredditNotFound => NoPostsReply
    case BadSubreddit => NoPostsReply
  }

  /** The checks `_perform_search` makes before asking for any post. */
  function CheckAbout(about: About, nsfwChannel: bool): (r: Option<SearchError>)
    ensures r == Some(SubredditNotFound) <==> about.NoData?
    ensures r == Some(NsfwChannelRequired) <==> about.AboutData? && about.over18 && !nsfwChannel
    ensures r.None? <==> about.AboutData? && (!about.over18 || nsfwChannel)
  {
    match about
    case NoData => Some(SubredditNotFound)
    case AboutData(over18) => if over18 && !nsfwChannel then Some(NsfwChannelRequired) else None
  }

  /** The `t` parameter of the listing request. */
  function TimeParam(sortBy: string): (r: string)
    ensures r == "all" <==> sortBy == "top"
    ensures sortBy != "top" ==> r == ""
  {
    if sortBy == "top" then "all" else ""
  }

  /* ---------------------------------------------------------------------- */
  /* Posts                                                                   */
  /* ---------------------------------------------------------------------- */

  /** The fields of one listing child's `data` that the command reads. Flags
      the JSON may omit (`stickied`, `over_18`) read as `false` when absent;
      `num_comments` may be absent. `hasMedia` is whether `media` is
      truthy. */
  datatype RawPost = RawPost(
    permalink: string,
    url: string,
    subredditNamePrefixed: string,
    title: string,
    ups: int,
    selftext: string,
    over18: bool,
    thumbnail: string,
    numComments: Option<int>,
    author: string,
    stickied: bool,
    hasMedia: bool)

  /** A `SubredditPost`. */
  datatype Post = Post(
    url: string,
    respUrl: string,
    subreddit: string,
    title: string,
    upvotes: int,
    text: string,
    nsfw: bool,
    thumbnail: string,
    commentCount: int,
    author: string,
    videoLink: Option<string>,
    imageLink: Option<string>)

  /** `url.endswith((".jpg", ".jpeg", ".png", ".gif"))`. */
  predicate HasImageExtension(url: string) {
    EndsWith(url, ".jpg") || EndsWith(url, ".jpeg") || EndsWith(url, ".png") || EndsWith(url, ".gif")
  }

  /** `"v.redd.it" in url`. */
  predicate IsVideoUrl(url: string) {
    Contains(url, "v.redd.it")
  }

  /** A post the loop neither skips for being stickied nor for being NSFW in
      a safe channel. */
  predicate Eligible(p: RawPost, nsfwChannel: bool) {
    !p.stickied && (nsfwChannel || !p.over18)
  }

  /** An eligible video post without media: dropped without counting. */
  predicate MediaSkip(p: RawPost, nsfwChannel: bool) {
    Eligible(p, nsfwChannel) && IsVideoUrl(p.url) && !p.hasMedia
  }

  /** The image link: the url when it names an image file, overridden by the
      thumbnail for a video url. */
  function ImageLink(p: RawPost): (r: Option<string>)
    ensures IsVideoUrl(p.url) ==> r == Some(p.thumbnail)
    ensures !IsVideoUrl(p.url) ==> (r.Some? <==> HasImageExtension(p.url))
    ensures !IsVideoUrl(p.url) && r.Some? ==> r.value == p.url
  {
    var image := if HasImageExtension(p.url) then Some(p.url) else None;
    if IsVideoUrl(p.url) then Some(p.thumbnail) else image
  }

  /** The video link: the url of a video post with media. */
  function VideoLink(p: RawPost): (r: Option<string>)
    ensures r.Some? <==> IsVideoUrl(p.url) && p.hasMedia
    ensures r.Some? ==> r.value == p.url
  {
    if IsVideoUrl(p.url) && p.hasMedia then Some(p.url) else None
  }

  /** `SubredditPost(_short, image_link=..., video_link=...)`. */
  function MakePost(p: RawPost): (r: Post)
    ensures r.url == "https://reddit.com/" + p.permalink
    ensures r.author == "/u/" + p.author
    ensures r.nsfw == p.over18
    ensures r.commentCount == (match p.numComments case Some(n) => n case None => 0)
    ensures r.imageLink == ImageLink(p) && r.videoLink == VideoLink(p)
  {
    Post("https://reddit.com/" + p.permalink, p.url, p.subredditNamePrefixed, p.title, p.ups,
         p.selftext, p.over18, p.thumbnail,
         match p.numComments case Some(n) => n case None => 0,
         "/u/" + p.author, VideoLink(p), ImageLink(p))
  }

  /** A url ending in an image extension, and not on the video host, is its
      own image and has no video. */
  lemma ImageUrlIsKept(p: RawPost)
    requires !IsVideoUrl(p.url) && EndsWith(p.url, ".png")
    ensures MakePost(p).imageLink == Some(p.url)
    ensures MakePost(p).videoLink.None?
  {
  }

  /* ---------------------------------------------------------------------- */
  /* The filter loop                                                         */
  /* ---------------------------------------------------------------------- */

  /** Most posts the loop looks at before it stops. */
  const PostLimit: nat := 20

  /** Reference definition of the loop of `_perform_search`, from the counter
      value `idx`: it stops when the counter reaches the limit; a stickied
      post, or an NSFW one in a safe channel, is skipped and counted; a video
      post without media is skipped and not counted; any other post is kept
      and counted. */
  function Collect(posts: seq<RawPost>, idx: nat, nsfwChannel: bool): (r: seq<Post>)
    requires idx <= PostLimit
    ensures |r| <= PostLimit - idx
    ensures |r| <= |posts|
    decreases |posts|
  {
    if |posts| == 0 || idx == PostLimit then []
    else
      var p := posts[0];
      if !Eligible(p, nsfwChannel) then Collect(posts[1..], idx + 1, nsfwChannel)
      else if MediaSkip(p, nsfwChannel) then Collect(posts[1..], idx, nsfwChannel)
      else [MakePost(p)] + Collect(posts[1..], idx + 1, nsfwChannel)
  }

  /** `post` is what the loop keeps of `p`. */
  predicate CollectedFrom(post: Post, p: RawPost, nsfwChannel: bool) {
    Eligible(p, nsfwChannel) && !MediaSkip(p, nsfwChannel) && post == MakePost(p)
  }

  /** Every collected post is made from an eligible post of the listing that
      is not a video without media. */
  lemma {:induction false} CollectedAreEligible(posts: seq<RawPost>, idx: nat, nsfwChannel: bool, k: nat)
    requires idx <= PostLimit && k < |Collect(posts, idx, nsfwChannel)|
    ensures exists j :: 0 <= j < |posts| && CollectedFrom(Collect(posts, idx, nsfwChannel)[k], posts[j], nsfwChannel)
    decreases |posts|, 1
  {
    var post := Collect(posts, idx, nsfwChannel)[k];
    CollectStep(posts, idx, nsfwChannel);
    if !Eligible(posts[0], nsfwChannel) || MediaSkip(posts[0], nsfwChannel) || k > 0 {
      CollectedAfterHead(posts, idx, nsfwChannel, k);
    } else {
      assert CollectedFrom(post, posts[0], nsfwChannel);
    }
  }

  /** The case of `CollectedAreEligible` where the post comes from the tail:
      the head was skipped, or it was kept and `k` lies past it. */
  lemma {:induction false} CollectedAfterHead(posts: seq<RawPost>, idx: nat, nsfwChannel: bool, k: nat)
    requires idx <= PostLimit && k < |Collect(posts, idx, nsfwChannel)|
    requires !Eligible(posts[0], nsfwChannel) || MediaSkip(posts[0], nsfwChannel) || k > 0
    ensures exists j :: 0 <= j < |posts| && CollectedFrom(Collect(posts, idx, nsfwChannel)[k], posts[j], nsfwChannel)
    decreases |posts|, 0
  {
    var tail := posts[1..];
    var post := Collect(posts, idx, nsfwChannel)[k];
    CollectStep(posts, idx, nsfwChannel);
    var idx': nat, k': nat := idx + 1, k;
    if MediaSkip(posts[0], nsfwChannel) {
      idx' := idx;
    } else if Eligible(posts[0], nsfwChannel) {
      k' := k - 1;
    }
    assert post == Collect(tail, idx', nsfwChannel)[k'];
    CollectedAreEligible(tail, idx', nsfwChannel, k');
    FoundInTail(posts, post, nsfwChannel);
  }

  /** A source found in the tail of a listing is found in the listing. */
  lemma FoundInTail(posts: seq<RawPost>, post: Post, nsfwChannel: bool)
    requires |posts| > 0
    requires exists j :: 0 <= j < |posts[1..]| && CollectedFrom(post, posts[1..][j], nsfwChannel)
    ensures exists j :: 0 <= j < |posts| && CollectedFrom(post, posts[j], nsfwChannel)
  {
    var j :| 0 <= j < |posts[1..]| && CollectedFrom(post, posts[1..][j], nsfwChannel);
    assert posts[j + 1] == posts[1..][j];
  }

  /** In a channel that is not NSFW no collected post is NSFW. */
  lemma SafeChannelGetsNoNsfwPosts(posts: seq<RawPost>)
    ensures forall k :: 0 <= k < |Collect(posts, 0, false)| ==> !Collect(posts, 0, false)[k].nsfw
  {
    forall k | 0 <= k < |Collect(posts, 0, false)|
      ensures !Collect(posts, 0, false)[k].nsfw
    {
      CollectedAreEligible(posts, 0, false, k);
    }
  }

  /** The links of every collected post agree with its url: a post has a
      video link iff its url is on the video host, and then the link is the
      url and the image is the thumbnail; otherwise it has an image iff the
      url names an image file, and then the image is the url. */
  lemma CollectedLinks(posts: seq<RawPost>, nsfwChannel: bool, k: nat)
    requires k < |Collect(posts, 0, nsfwChannel)|
    ensures var q := Collect(posts, 0, nsfwChannel)[k];
      && (q.videoLink.Some? <==> IsVideoUrl(q.respUrl))
      && (q.videoLink.Some? ==> q.videoLink.value == q.respUrl && q.imageLink == Some(q.thumbnail))
      && (q.videoLink.None? ==> (q.imageLink.Some? <==> HasImageExtension(q.respUrl)))
      && (q.videoLink.None? && q.imageLink.Some? ==> q.imageLink.value == q.respUrl)
  {
    CollectedAreEligible(posts, 0, nsfwChannel, k);
  }

  /** Skipped stickied or NSFW posts use up the counter: they advance it by
      one each. */
  lemma {:induction false} CountedSkipsAdvance(skipped: seq<RawPost>, rest: seq<RawPost>, idx: nat, nsfwChannel: bool)
    requires forall i :: 0 <= i < |skipped| ==> !Eligible(skipped[i], nsfwChannel)
    requires idx + |skipped| <= PostLimit
    ensures Collect(skipped + rest, idx, nsfwChannel) == Collect(rest, idx + |skipped|, nsfwChannel)
    decreases |skipped|
  {
    if |skipped| == 0 {
      assert skipped + rest == rest;
    } else {
      assert (skipped + rest)[1..] == skipped[1..] + rest;
      CountedSkipsAdvance(skipped[1..], rest, idx + 1, nsfwChannel);
    }
  }

  /** Video posts without media do not touch the counter. */
  lemma {:induction false} MediaSkipsDoNotAdvance(skipped: seq<RawPost>, rest: seq<RawPost>, idx: nat, nsfwChannel: bool)
    requires forall i :: 0 <= i < |skipped| ==> MediaSkip(skipped[i], nsfwChannel)
    requires idx <= PostLimit
    ensures Collect(skipped + rest, idx, nsfwChannel) == Collect(rest, idx, nsfwChannel)
    decreases |skipped|
  {
    if |skipped| == 0 {
      assert skipped + rest == rest;
    } else {
      assert (skipped + rest)[1..] == skipped[1..] + rest;
      MediaSkipsDoNotAdvance(skipped[1..], rest, idx, nsfwChannel);
    }
  }

  /** So twenty stickied posts at the top of a listing hide every post after
      them, while any number of video posts without media hide nothing. */
  lemma SkipsCompared(skipped: seq<RawPost>, videos: seq<RawPost>, rest: seq<RawPost>, nsfwChannel: bool)
    requires |skipped| == PostLimit
    requires forall i :: 0 <= i < |skipped| ==> skipped[i].stickied
    requires forall i :: 0 <= i < |videos| ==> MediaSkip(videos[i], nsfwChannel)
    ensures Collect(skipped + rest, 0, nsfwChannel) == []
    ensures Collect(videos + rest, 0, nsfwChannel) == Collect(rest, 0, nsfwChannel)
  {
    CountedSkipsAdvance(skipped, rest, 0, nsfwChannel);
    MediaSkipsDoNotAdvance(videos, rest, 0, nsfwChannel);
  }

  /** One step of the reference loop on a post it looks at. */
  lemma CollectStep(posts: seq<RawPost>, idx: nat, nsfwChannel: bool)
    requires |posts| > 0 && idx < PostLimit
    ensures Collect(posts, idx, nsfwChannel) ==
      if !Eligible(posts[0], nsfwChannel) then Collect(posts[1..], idx + 1, nsfwChannel)
      else if MediaSkip(posts[0], nsfwChannel) then Collect(posts[1..], idx, nsfwChannel)
      else [MakePost(posts[0])] + Collect(posts[1..], idx + 1, nsfwChannel)
  {
  }

  /** One turn of the loop keeps `pages + Collect(rest)` unchanged. */
  lemma FilterStep(pages: seq<Post>, posts: seq<RawPost>, i: nat, idx: nat, nsfwChannel: bool)
    requires i < |posts| && idx < PostLimit
    ensures var p, later := posts[i], posts[i + 1..];
      pages + Collect(posts[i..], idx, nsfwChannel) ==
        if !Eligible(p, nsfwChannel) then pages + Collect(later, idx + 1, nsfwChannel)
        else if MediaSkip(p, nsfwChannel) then pages + Collect(later, idx, nsfwChannel)
        else (pages + [MakePost(p)]) + Collect(later, idx + 1, nsfwChannel)
  {
    var rest := posts[i..];
    assert rest[0] == posts[i] && rest[1..] == posts[i + 1..];
    CollectStep(rest, idx, nsfwChannel);
    var later := Collect(posts[i + 1..], idx + 1, nsfwChannel);
    assert pages + ([MakePost(posts[i])] + later) == (pages + [MakePost(posts[i])]) + later;
  }

  /** The loop of `_perform_search` over a listing's posts. */
  method FilterPosts(posts: seq<RawPost>, nsfwChannel: bool) returns (pages: seq<Post>)
    ensures pages == Collect(posts, 0, nsfwChannel)
    ensures |pages| <= PostLimit
  {
    pages := [];
    var idx := 0;
    var i := 0;
    while i < |posts|
      invariant 0 <= i <= |posts| && idx <= PostLimit
      invariant pages + Collect(posts[i..], idx, nsfwChannel) == Collect(posts, 0, nsfwChannel)
    {
      if idx == PostLimit {
        break;
      }
      var p := posts[i];
      FilterStep(pages, posts, i, idx, nsfwChannel);
      if !Eligible(p, nsfwChannel) {
        idx := idx + 1;
      } else if !MediaSkip(p, nsfwChannel) {
        pages := pages + [MakePost(p)];
        idx := idx + 1;
      }
      i := i + 1;
    }
    assert Collect(posts[i..], idx, nsfwChannel) == [];
    assert pages + [] == pages;
  }

  /* ---------------------------------------------------------------------- */
  /* Pages                                                                   */
  /* ---------------------------------------------------------------------- */

  /** Most pages the menu shows. */
  const PageLimit: nat := 15

  /** One embed: the post's fields, the optional image and video link, and
      the footer. */
  datatype Page = Page(
    title: string,
    description: string,
    url: string,
    author: string,
    image: Option<string>,
    videoField: Option<string>,
    upvotes: int,
    comments: int,
    footer: string)

  /** `Result {position + 1}/{total} | {subreddit} | Requested by: {requester}`. */
  function Footer(position: nat, total: nat, subreddit: string, requester: string): string {
    "Result " + Decimal(position + 1) + "/" + Decimal(total) + " | " + subreddit
      + " | Requested by: " + requester
  }

  /** The embed of the post at `position` among `total` posts. An empty
      image or video link adds nothing. */
  function PageFor(item: Post, position: nat, total: nat, requester: string): Page {
    var image := if item.imageLink.Some? && |item.imageLink.value| > 0 then item.imageLink else None;
    var video := if item.videoLink.Some? && |item.videoLink.value| > 0
      then Some("[Click me!](" + item.videoLink.value + ")") else None;
    Page(item.title, item.text, item.url, item.author, image, video, item.upvotes,
         item.commentCount, Footer(position, total, item.subreddit, requester))
  }

  /** `_gen_embeds`: one page per post, numbered by its position (posts are
      compared by identity, so each one is found at its own position) and
      counted against all posts, of which the first fifteen are kept. */
  function GenPages(requester: string, items: seq<Post>): (r: seq<Page>)
    ensures |r| == if |items| < PageLimit then |items| else PageLimit
    ensures forall k :: 0 <= k < |r| ==>
      r[k].footer == Footer(k, |items|, items[k].subreddit, requester) && r[k].url == items[k].url
  {
    var n := if |items| < PageLimit then |items| else PageLimit;
    seq(n, k requires 0 <= k < n => PageFor(items[k], k, |items|, requester))
  }

  /** The position a footer names, `i` in `Result i/n | ...`. */
  function FooterPosition(footer: string): Option<nat> {
    if StartsWith(footer, "Result ") then NumberBeforeSlash(footer[7..]) else None
  }

  /** A footer reads back as its page's one-based position. */
  lemma FooterPositionRoundTrip(position: nat, total: nat, subreddit: string, requester: string)
    ensures FooterPosition(Footer(position, total, subreddit, requester)) == Some(position + 1)
  {
    var tail := Decimal(total) + " | " + subreddit + " | Requested by: " + requester;
    var rest := Decimal(position + 1) + "/" + tail;
    assert Footer(position, total, subreddit, requester) == "Result " + rest;
    ConcatSlices("Result ", rest, "");
    NumberBeforeSlashRoundTrip(position + 1, tail);
  }

  /** Pages are numbered 1, 2, ... in order, and with more than fifteen
      posts the footers count posts that have no page. */
  lemma PagesAreNumberedInOrder(requester: string, items: seq<Post>, k: nat)
    requires k < |GenPages(requester, items)|
    ensures FooterPosition(GenPages(requester, items)[k].footer) == Some(k + 1)
    ensures |items| > PageLimit ==> |GenPages(requester, items)| < |items|
  {
    FooterPositionRoundTrip(k, |items|, items[k].subreddit, requester);
  }

  /* ---------------------------------------------------------------------- */
  /* The command                                                             */
  /* ---------------------------------------------------------------------- */

  /** `_reddit` followed by `_perform_search`: the about checks, the filter
      loop (its at most twenty posts are all within the `[:30]` slice), the
      pages, and `BadSubreddit` when there are none. */
  function RedditCommand(about: About, posts: seq<RawPost>, nsfwChannel: bool, requester: string)
    : (r: Result<seq<Page>, SearchError>)
    ensures about.NoData? ==> r == Err(SubredditNotFound)
    ensures about.AboutData? && about.over18 && !nsfwChannel ==> r == Err(NsfwChannelRequired)
    ensures r.Ok? ==> 0 < |r.value| <= PageLimit
    ensures r.Ok? ==> r.value == GenPages(requester, Collect(posts, 0, nsfwChannel))
    ensures r.Ok? ==> CheckAbout(about, nsfwChannel).None? && |Collect(posts, 0, nsfwChannel)| > 0
    ensures r == Err(BadSubreddit) <==>
      CheckAbout(about, nsfwChannel).None? && |Collect(posts, 0, nsfwChannel)| == 0
  {
    match CheckAbout(about, nsfwChannel)
    case Some(e) => Err(e)
    case None =>
      var collected := Collect(posts, 0, nsfwChannel);
      var pages := GenPages(requester, collected[..if |collected| < 30 then |collected| else 30]);
      if |pages| == 0 then Err(BadSubreddit) else Ok(pages)
  }
}

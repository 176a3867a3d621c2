/** The site builder: the page template with its base path, the homepage's
    featured and recent posts, the blog index, and one page per post whose
    body has its self-links unwrapped and its links to other posts given the
    `.html` extension. A page is kept as its parts (title, template links,
    main section) rather than as HTML text; the build directory is the set of
    paths that exist in it, and the pages written are a map from path to page. */
module SiteBuild {
  import opened Common
  import HrefFix
  import SelfLinks
  import opened ContentPosts
  import ImageBatch
  import Replace

  /** The directory a page lives in: the site root or `blog/`. */
  datatype Dir = Root | BlogDir

  function DirPrefix(d: Dir): string {
    if d == Root then "" else "blog/"
  }

  /** The site path a relative link of a page in `d` points at: `./` stays
      in the directory, `../` leaves `blog/`; any other link is relative to
      the directory. From the root `../` is taken to leave the site, as it
      does for a site served under a sub-path (a project page); a site served
      at a domain root would clamp it back to the root, and the second half
      of `BasePathResolves` relies on the sub-path reading. */
  function Resolve(d: Dir, href: string): Option<string> {
    if |href| >= 3 && href[0] == '.' && href[1] == '.' && href[2] == '/' then
      if d == BlogDir then Some(href[3..]) else None
    else if |href| >= 2 && href[0] == '.' && href[1] == '/' then Some(DirPrefix(d) + href[2..])
    else Some(DirPrefix(d) + href)
  }

  /** `isHomepage ? './' : '../'`. */
  function BasePath(isHomepage: bool): string {
    if isHomepage then "./" else "../"
  }

  /** Where the template expects the page to be: at the root for the
      homepage (and the static pages), in `blog/` otherwise. */
  function PageDir(isHomepage: bool): Dir {
    if isHomepage then Root else BlogDir
  }

  /** The base path takes a link from the page's directory to the site root,
      and only from there: from the other directory it misses its target. */
  lemma BasePathResolves(isHomepage: bool, t: string)
    requires |t| == 0 || t[0] != '.'
    ensures Resolve(PageDir(isHomepage), BasePath(isHomepage) + t) == Some(t)
    ensures Resolve(PageDir(!isHomepage), BasePath(isHomepage) + t) != Some(t)
  {
    var h := BasePath(isHomepage) + t;
    if isHomepage {
      assert h[0] == '.' && h[1] == '/' && h[2..] == t;
      assert "" + t == t;
      assert Resolve(BlogDir, h) == Some("blog/" + t);
      assert |"blog/" + t| != |t|;
    } else {
      assert h[0] == '.' && h[1] == '.' && h[2] == '/' && h[3..] == t;
    }
  }

  const TitleSuffix: string := " | Numerology & Lucky Numbers"

  /** The site paths of the template's own links in document order: the
      stylesheet, the logo and the navigation, the footer, the script. */
  const LinkTargets: seq<string> := ["css/style.css", "index.html", "index.html", "blog/index.html",
    "about.html", "contact.html", "about.html", "privacy.html", "terms.html", "contact.html", "js/main.js"]

  lemma LinkTargetsUndotted()
    ensures forall i :: 0 <= i < |LinkTargets| ==> |LinkTargets[i]| > 0 && LinkTargets[i][0] != '.'
  {
  }

  /** What is shown for a post or the author: a picture or, when the image
      is missing, the first character of the name. */
  datatype Visual = Picture(src: string, alt: string) | Initial(letter: string)

  /** A post card of the homepage or the blog index. */
  datatype Card = Card(href: string, visual: Visual, date: string, readTime: string, title: string, description: string)

  datatype Author = Author(name: string, role: string)

  /** The main section of a page. */
  datatype Main =
    | HomeMain(featured: Option<Card>, recent: seq<Card>)
    | IndexMain(cards: seq<Card>)
    | ArticleMain(title: string, date: string, readTime: string, image: Option<string>, body: string,
                  author: Visual, authorName: string, authorRole: string)

  datatype Page = Page(title: string, links: seq<string>, main: Main)

  /** `generateHTML(title, content, isHomepage)`: the page title carries the
      site name, and every link of the template points at its target from
      the directory the template assumes. */
  function GenerateHTML(title: string, main: Main, isHomepage: bool): (p: Page)
    ensures p.title == title + TitleSuffix && p.main == main
    ensures |p.links| == |LinkTargets|
    ensures forall i :: 0 <= i < |LinkTargets| ==> Resolve(PageDir(isHomepage), p.links[i]) == Some(LinkTargets[i])
  {
    LinkTargetsUndotted();
    var links := seq(|LinkTargets|, i requires 0 <= i < |LinkTargets| => BasePath(isHomepage) + LinkTargets[i]);
    forall i | 0 <= i < |LinkTargets|
      ensures Resolve(PageDir(isHomepage), links[i]) == Some(LinkTargets[i])
    {
      BasePathResolves(isHomepage, LinkTargets[i]);
    }
    Page(title + TitleSuffix, links, main)
  }

  /** `s.charAt(0)`: the first character, or the empty string. */
  function FirstChar(s: string): string {
    if |s| == 0 then "" else [s[0]]
  }

  /** The page of a post. */
  function PostPagePath(slug: string): string {
    "blog/" + slug + HrefFix.Html
  }

  /** The image of a post when the build directory has it, seen from a page
      whose path to the root is `base`; the title's first character otherwise. */
  function PostVisual(post: Post, built: set<string>, base: string): Visual {
    if ImageBatch.ImagePath(post.slug) in built then Picture(base + ImageBatch.ImagePath(post.slug), post.title)
    else Initial(FirstChar(post.title))
  }

  /** A card of the homepage, which lives at the root. */
  function HomeCard(post: Post, built: set<string>): Card {
    Card("blog/" + post.slug + HrefFix.Html, PostVisual(post, built, ""), post.date, post.readTime, post.title, post.metaDescription)
  }

  /** A card of the blog index, which lives in `blog/`. */
  function IndexCard(post: Post, built: set<string>): Card {
    Card(post.slug + HrefFix.Html, PostVisual(post, built, "../"), post.date, post.readTime, post.title, post.metaDescription)
  }

  /** A card shows the post's fields; it links to the post's page and shows
      the post's image from where the card is placed, or the initial
      exactly when the image is missing. */
  predicate CardFor(c: Card, post: Post, built: set<string>, d: Dir) {
    && Resolve(d, c.href) == Some(PostPagePath(post.slug))
    && c.title == post.title && c.date == post.date && c.readTime == post.readTime
    && c.description == post.metaDescription
    && (c.visual.Picture? <==> ImageBatch.ImagePath(post.slug) in built)
    && (c.visual.Picture? ==> Resolve(d, c.visual.src) == Some(ImageBatch.ImagePath(post.slug)) && c.visual.alt == post.title)
    && (c.visual.Initial? ==> c.visual.letter == FirstChar(post.title))
  }

  /** The two kinds of card, placed at the root and in `blog/`, reach the
      same post page and the same image. */
  lemma CardsAgree(post: Post, built: set<string>)
    requires HrefFix.Slug(post.slug)
    ensures CardFor(HomeCard(post, built), post, built, Root)
    ensures CardFor(IndexCard(post, built), post, built, BlogDir)
  {
    var h := HomeCard(post, built).href;
    var x := IndexCard(post, built).href;
    var img := ImageBatch.ImagePath(post.slug);
    assert h[0] == 'b';
    assert Resolve(Root, h) == Some("" + h);
    assert "" + h == PostPagePath(post.slug);
    assert Resolve(BlogDir, "../" + img) == Some(img) by {
      assert ("../" + img)[3..] == img;
    }
    assert Resolve(Root, "" + img) == Some(img) by {
      assert img[0] == 'i';
      assert "" + ("" + img) == img;
    }
    if |post.slug| > 0 {
      assert x[0] == post.slug[0];
      assert HrefFix.IsSlugChar(post.slug[0]);
    } else {
      assert x == HrefFix.Html;
    }
    assert x[0] != '.' || |post.slug| == 0;
    assert Resolve(BlogDir, x) == Some("blog/" + x) by {
      if |post.slug| == 0 {
        assert x[1] == 'h';
      }
    }
    assert "blog/" + x == PostPagePath(post.slug);
  }

  /** `posts[0]`, when there is one. */
  function Featured(posts: seq<Post>): Option<Post> {
    if |posts| > 0 then Some(posts[0]) else None
  }

  /** `posts.slice(1, 4)`: both ends clamped to the length. */
  function Recent(posts: seq<Post>): seq<Post> {
    var n := |posts|;
    posts[(if n < 1 then n else 1)..(if n < 4 then n else 4)]
  }

  predicate DistinctSlugs(posts: seq<Post>) {
    forall i, j :: 0 <= i < j < |posts| ==> posts[i].slug != posts[j].slug
  }

  /** The homepage features the first post, if there is one, and lists the
      next ones, at most three, in order; the featured post is never among
      them when the slugs are distinct. */
  lemma HomepageSelection(posts: seq<Post>)
    ensures Featured(posts).None? <==> |posts| == 0
    ensures Featured(posts).Some? ==> Featured(posts).value == posts[0]
    ensures |Recent(posts)| <= 3
    ensures |Recent(posts)| == (if |posts| <= 1 then 0 else if |posts| >= 4 then 3 else |posts| - 1)
    ensures forall i :: 0 <= i < |Recent(posts)| ==> Recent(posts)[i] == posts[i + 1]
    ensures DistinctSlugs(posts) && Featured(posts).Some? ==>
      forall i :: 0 <= i < |Recent(posts)| ==> Recent(posts)[i].slug != Featured(posts).value.slug
  {
  }

  /** The homepage: the featured card (the section is empty without posts)
      and the recent cards. */
  function BuildHomepage(posts: seq<Post>, built: set<string>): Page {
    var featured := match Featured(posts)
      case Some(p) => Some(HomeCard(p, built))
      case None => None;
    var recent := Recent(posts);
    var cards := seq(|recent|, i requires 0 <= i < |recent| => HomeCard(recent[i], built));
    GenerateHTML("Home", HomeMain(featured, cards), true)
  }

  /** The homepage's cards are those of the selected posts, placed at the root. */
  lemma HomepageCards(posts: seq<Post>, built: set<string>)
    requires HrefFix.AllSlugs(Slugs(posts))
    ensures var m := BuildHomepage(posts, built).main;
      && m.HomeMain?
      && (m.featured.None? <==> |posts| == 0)
      && (m.featured.Some? ==> CardFor(m.featured.value, posts[0], built, Root))
      && |m.recent| == |Recent(posts)| && |m.recent| <= 3
      && forall i :: 0 <= i < |m.recent| ==> CardFor(m.recent[i], posts[i + 1], built, Root)
  {
    var m := BuildHomepage(posts, built).main;
    HomepageSelection(posts);
    if |posts| > 0 {
      assert Slugs(posts)[0] == posts[0].slug;
      CardsAgree(posts[0], built);
    }
    forall i | 0 <= i < |m.recent| ensures CardFor(m.recent[i], posts[i + 1], built, Root) {
      assert Slugs(posts)[i + 1] == posts[i + 1].slug;
      CardsAgree(posts[i + 1], built);
    }
  }

  /** The blog index: one card per post. */
  function BuildBlogIndex(posts: seq<Post>, built: set<string>): Page {
    GenerateHTML("Blog", IndexMain(seq(|posts|, i requires 0 <= i < |posts| => IndexCard(posts[i], built))), false)
  }

  /** The blog index has one card per post, in the document's order, each
      reaching its post from `blog/`. */
  lemma BlogIndexCards(posts: seq<Post>, built: set<string>)
    requires HrefFix.AllSlugs(Slugs(posts))
    ensures var m := BuildBlogIndex(posts, built).main;
      && m.IndexMain? && |m.cards| == |posts|
      && forall i :: 0 <= i < |posts| ==> CardFor(m.cards[i], posts[i], built, BlogDir)
  {
    forall i | 0 <= i < |posts| ensures CardFor(BuildBlogIndex(posts, built).main.cards[i], posts[i], built, BlogDir) {
      assert Slugs(posts)[i] == posts[i].slug;
      CardsAgree(posts[i], built);
    }
  }

  /** `posts.map(p => p.slug)`. */
  function Slugs(posts: seq<Post>): seq<string> {
    seq(|posts|, i requires 0 <= i < |posts| => posts[i].slug)
  }

  /** The body of a post page: self-links unwrapped first, then the links to
      the other slugs of the document fixed in document order. */
  function CleanBody(post: Post, slugs: seq<string>): string {
    HrefFix.FixHrefs(SelfLinks.RemoveSelfLinks(post.content, post.slug), post.slug, slugs)
  }

  /** The page of `post` with the cleaned body. */
  function PostPage(post: Post, slugs: seq<string>, built: set<string>, author: Author): Page {
    ArticlePage(post, CleanBody(post, slugs), built, author)
  }

  /** The page of `post` around `body`: its title, its image if the build
      has it, the body, and the author's picture or initial. */
  function ArticlePage(post: Post, body: string, built: set<string>, author: Author): Page {
    var image := if ImageBatch.ImagePath(post.slug) in built then Some("../" + ImageBatch.ImagePath(post.slug)) else None;
    var face := if ImageBatch.AuthorImagePath in built then Picture("../" + ImageBatch.AuthorImagePath, author.name)
                else Initial(FirstChar(author.name));
    GenerateHTML(post.title, ArticleMain(post.title, post.date, post.readTime, image, body,
                                         face, author.name, author.role), false)
  }

  /** The page paths of `posts`. */
  function PagePaths(posts: seq<Post>): (r: set<string>)
    ensures forall i :: 0 <= i < |posts| ==> PostPagePath(posts[i].slug) in r
  {
    if |posts| == 0 then {}
    else
      var init := posts[..|posts| - 1];
      assert forall i :: 0 <= i < |init| ==> init[i] == posts[i];
      PagePaths(init) + {PostPagePath(posts[|posts| - 1].slug)}
  }

  lemma {:induction false} PagePathsMeaning(posts: seq<Post>, p: string)
    ensures p in PagePaths(posts) <==> exists i :: 0 <= i < |posts| && p == PostPagePath(posts[i].slug)
  {
    if |posts| > 0 {
      var init := posts[..|posts| - 1];
      PagePathsMeaning(init, p);
      if p in PagePaths(init) {
        var i :| 0 <= i < |init| && p == PostPagePath(init[i].slug);
        assert posts[i] == init[i];
      }
      if exists i :: 0 <= i < |posts| && p == PostPagePath(posts[i].slug) {
        var i :| 0 <= i < |posts| && p == PostPagePath(posts[i].slug);
        if i < |init| { assert init[i] == posts[i]; }
      }
    }
  }

  /** The pages after writing one page per post of `posts`, in order: the
      old pages plus one per post, and no other path. */
  function PostPages(site: map<string, Page>, posts: seq<Post>, slugs: seq<string>, built: set<string>, author: Author)
    : (r: map<string, Page>)
    ensures r.Keys == site.Keys + PagePaths(posts)
  {
    if |posts| == 0 then site
    else
      var last := posts[|posts| - 1];
      PostPages(site, posts[..|posts| - 1], slugs, built, author)[PostPagePath(last.slug) := PostPage(last, slugs, built, author)]
  }

  lemma PostPagesStep(site: map<string, Page>, posts: seq<Post>, i: nat, slugs: seq<string>, built: set<string>, author: Author)
    requires i < |posts|
    ensures PostPages(site, posts[..i + 1], slugs, built, author)
         == PostPages(site, posts[..i], slugs, built, author)[PostPagePath(posts[i].slug) := PostPage(posts[i], slugs, built, author)]
  {
    assert posts[..i + 1][..i] == posts[..i];
  }

  lemma PostPagePathInjective(a: string, b: string)
    ensures PostPagePath(a) == PostPagePath(b) ==> a == b
  {
    if PostPagePath(a) == PostPagePath(b) {
      assert |a| == |b|;
      assert a == PostPagePath(a)[5..5 + |a|];
      assert b == PostPagePath(b)[5..5 + |b|];
    }
  }

  /** With distinct slugs, each post's page holds that post's page. */
  lemma {:induction false} PostPagesStore(site: map<string, Page>, posts: seq<Post>, slugs: seq<string>,
                                          built: set<string>, author: Author, i: nat)
    requires DistinctSlugs(posts) && i < |posts|
    ensures PostPages(site, posts, slugs, built, author)[PostPagePath(posts[i].slug)] == PostPage(posts[i], slugs, built, author)
  {
    var init := posts[..|posts| - 1];
    if i < |posts| - 1 {
      assert init[i] == posts[i];
      assert DistinctSlugs(init);
      PostPagesStore(site, init, slugs, built, author, i);
      PostPagePathInjective(posts[i].slug, posts[|posts| - 1].slug);
    }
  }

  /** Every other page, the homepage and the blog index among them unless a
      post is named after them, keeps what it had. */
  lemma {:induction false} PostPagesKeep(site: map<string, Page>, posts: seq<Post>, slugs: seq<string>,
                                         built: set<string>, author: Author, p: string)
    requires p in site && p !in PagePaths(posts)
    ensures PostPages(site, posts, slugs, built, author)[p] == site[p]
  {
    if |posts| > 0 {
      PostPagesKeep(site, posts[..|posts| - 1], slugs, built, author, p);
    }
  }

  /** A post page lives in `blog/` and its template links reach their
      targets from there; its image appears exactly when the build has it
      and is reached from `blog/`; the author's picture appears exactly when
      the build has it, the initial otherwise; and its body has no link left
      to another slug of the document without the extension, so fixing it
      once more changes nothing. */
  lemma PostPageContents(post: Post, slugs: seq<string>, built: set<string>, author: Author)
    requires HrefFix.AllSlugs(slugs)
    ensures var page := PostPage(post, slugs, built, author); var m := page.main;
      && page.title == post.title + TitleSuffix
      && (forall i :: 0 <= i < |LinkTargets| ==> Resolve(BlogDir, page.links[i]) == Some(LinkTargets[i]))
      && m.ArticleMain? && m.title == post.title && m.date == post.date && m.readTime == post.readTime
      && (m.image.Some? <==> ImageBatch.ImagePath(post.slug) in built)
      && (m.image.Some? ==> Resolve(BlogDir, m.image.value) == Some(ImageBatch.ImagePath(post.slug)))
      && (m.author.Picture? <==> ImageBatch.AuthorImagePath in built)
      && (m.author.Picture? ==> Resolve(BlogDir, m.author.src) == Some(ImageBatch.AuthorImagePath))
      && (m.author.Initial? ==> m.author.letter == FirstChar(author.name))
      && m.authorName == author.name && m.authorRole == author.role
      && m.body == CleanBody(post, slugs)
      && (forall y :: y in slugs && y != post.slug ==> Absent(m.body, HrefFix.Href(y)))
      && HrefFix.FixHrefs(m.body, post.slug, slugs) == m.body
  {
    var body := CleanBody(post, slugs);
    var img := ImageBatch.ImagePath(post.slug);
    assert ("../" + img)[3..] == img;
    assert ("../" + ImageBatch.AuthorImagePath)[3..] == ImageBatch.AuthorImagePath;
    forall y | y in slugs && y != post.slug ensures Absent(body, HrefFix.Href(y)) {
      HrefFix.FixHrefsComplete(SelfLinks.RemoveSelfLinks(post.content, post.slug), post.slug, slugs, y);
    }
    HrefFix.FixHrefsIdempotent(SelfLinks.RemoveSelfLinks(post.content, post.slug), post.slug, slugs);
  }

  /** The `allSlugs.forEach` pass over one body: each slug other than the
      post's own gets its links rewritten, in document order. */
  method FixLinks(body: string, own: string, allSlugs: seq<string>) returns (cleaned: string)
    ensures cleaned == HrefFix.FixHrefs(body, own, allSlugs)
  {
    cleaned := body;
    var j := 0;
    while j < |allSlugs|
      invariant 0 <= j <= |allSlugs|
      invariant cleaned == HrefFix.FixHrefs(body, own, allSlugs[..j])
    {
      assert allSlugs[..j + 1][..j] == allSlugs[..j];
      if allSlugs[j] != own {
        cleaned := Replace.ReplaceAll(cleaned, HrefFix.Href(allSlugs[j]), HrefFix.Href(allSlugs[j] + HrefFix.Html));
      }
      j := j + 1;
    }
    assert allSlugs[..j] == allSlugs;
  }

  /** `buildBlogPosts`: for each post, the self-links are unwrapped, then
      each other slug's links get the extension, one slug after the other,
      and the page is written to `blog/<slug>.html`. */
  method BuildBlogPosts(posts: seq<Post>, built: set<string>, author: Author, site: map<string, Page>)
    returns (site': map<string, Page>)
    ensures site' == PostPages(site, posts, Slugs(posts), built, author)
  {
    var allSlugs := seq(|posts|, k requires 0 <= k < |posts| => posts[k].slug);
    site' := site;
    var i := 0;
    while i < |posts|
      invariant 0 <= i <= |posts|
      invariant site' == PostPages(site, posts[..i], allSlugs, built, author)
    {
      var post := posts[i];
      var cleaned := SelfLinks.RemoveSelfLinks(post.content, post.slug);
      cleaned := FixLinks(cleaned, post.slug, allSlugs);
      assert ArticlePage(post, cleaned, built, author) == PostPage(post, allSlugs, built, author);
      PostPagesStep(site, posts, i, allSlugs, built, author);
      site' := site'[PostPagePath(post.slug) := ArticlePage(post, cleaned, built, author)];
      i := i + 1;
    }
    assert posts[..i] == posts;
    assert allSlugs == Slugs(posts);
  }
}

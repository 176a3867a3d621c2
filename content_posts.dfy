/** `generateBlogPosts` of the content generator: for each topic in order,
    the article body and then the meta description are requested through
    `retryAPI`, and the post record is assembled from the topic, the two
    replies and the post's date and reading time. The first error thrown
    ends the whole run. */
module ContentPosts {
  import opened Common
  import opened ContentRetry
  import opened ContentClean
  import ImagePrompts

  datatype Topic = Topic(title: string, slug: string, focus: string)

  /** The six topics, in the order the posts are generated. */
  const Topics: seq<Topic> := [
    Topic("Understanding Your Life Path Number: A Complete Guide", "life-path-number-guide",
          "life path number calculation, meaning, personality traits, destiny"),
    Topic("Lucky Numbers by Date of Birth: Discover Your Personal Numbers", "lucky-numbers-date-of-birth",
          "birth date numerology, personal lucky numbers, date calculations"),
    Topic("The Meaning of Master Numbers in Numerology: 11, 22, 33", "master-numbers-numerology",
          "master numbers, spiritual significance, special numbers, power numbers"),
    Topic("How to Calculate Your Expression Number: Unlock Your Talents", "expression-number-calculation",
          "expression number, name numerology, talents, abilities, career path"),
    Topic("Lucky Numbers for Different Purposes: Love, Career, and Wealth", "lucky-numbers-different-purposes",
          "lucky numbers for love, career success, wealth, specific purposes"),
    Topic("Numerology and Compatibility: Finding Your Perfect Match", "numerology-compatibility",
          "relationship compatibility, partner numbers, love numerology, soulmate numbers")
  ]

  /** The slugs of the topics are exactly the keys of the image generator's
      prompt table, so no generated post is illustrated with the fallback
      prompt. */
  lemma TopicsHavePrompts()
    ensures |Topics| == 6
    ensures (set i | 0 <= i < |Topics| :: Topics[i].slug) == ImagePrompts.PromptSlugs
    ensures forall i :: 0 <= i < |Topics| ==> ImagePrompts.PromptFor(Topics[i].slug) == ImagePrompts.PostPrompt(Topics[i].slug)
  {
    var slugs := set i | 0 <= i < |Topics| :: Topics[i].slug;
    assert Topics[0].slug in slugs && Topics[1].slug in slugs && Topics[2].slug in slugs;
    assert Topics[3].slug in slugs && Topics[4].slug in slugs && Topics[5].slug in slugs;
  }

  /** The date and the reading-time label of a post, drawn at random by the
      generator; here they are given per post. */
  datatype Stamp = Stamp(date: string, readTime: string)

  /** A post record of the content document. */
  datatype Post = Post(title: string, slug: string, content: string, metaDescription: string,
                       date: string, readTime: string)

  /** Which meta-description cleanup a run applies: `AsWritten` is what the
      generator does, `Corrected` the cleanup it evidently intends. */
  datatype Cleanup = AsWritten | Corrected

  /** Both cleanups leave no `"`; the corrected one always leaves no
      surrounding white space, the one as written only on a reply without
      `"`. */
  function Clean(c: Cleanup, s: string): (r: string)
    ensures '"' !in r
    ensures c == Corrected || '"' !in s ==> Trimmed(r)
    ensures c == AsWritten ==> r == CleanMetaAsWritten(s)
    ensures c == Corrected ==> r == CleanMeta(s)
  {
    match c
    case AsWritten => CleanMetaAsWritten(s)
    case Corrected => CleanMeta(s)
  }

  /** The call handed to `retryAPI` for the meta description: the reply's
      text, cleaned; a rejection passes through unchanged. */
  function MetaFn(reply: Fn<string>, c: Cleanup): Fn<string> {
    (a: nat) => match reply(a)
      case Resolved(t) => Resolved(Clean(c, t))
      case Rejected(e) => Rejected(e)
  }

  lemma MetaFnMeaning(reply: Fn<string>, c: Cleanup)
    ensures forall a: nat :: MetaFn(reply, c)(a).Rejected? <==> reply(a).Rejected?
    ensures forall a: nat :: reply(a).Rejected? ==> MetaFn(reply, c)(a) == reply(a)
    ensures forall a: nat :: reply(a).Resolved? ==> MetaFn(reply, c)(a) == Resolved(Clean(c, reply(a).value))
  {
    forall a: nat ensures MetaFn(reply, c)(a) == match reply(a) case Resolved(t) => Resolved(Clean(c, t)) case Rejected(e) => Rejected(e) {
      assert MetaFn(reply, c)(a) == match reply(a) case Resolved(t) => Resolved(Clean(c, t)) case Rejected(e) => Rejected(e);
    }
  }

  /** The post for one topic: the body's call first, then the meta
      description's; an error of either call propagates. */
  function TopicPost(t: Topic, body: Fn<string>, meta: Fn<string>, stamp: Stamp, c: Cleanup): Result<Post, Thrown> {
    match RetrySpec(body, DefaultMaxRetries).outcome
    case Threw(e) => Failure(e)
    case Returned(content) =>
      match RetrySpec(MetaFn(meta, c), DefaultMaxRetries).outcome
      case Threw(e) => Failure(e)
      case Returned(m) => Success(Post(t.title, t.slug, content, m, stamp.date, stamp.readTime))
  }

  method GenerateTopicPost(t: Topic, body: Fn<string>, meta: Fn<string>, stamp: Stamp)
    returns (r: Result<Post, Thrown>)
    ensures r == TopicPost(t, body, meta, stamp, AsWritten)
  {
    var content, _ := RetryApi(body, DefaultMaxRetries);
    if content.Threw? {
      return Failure(content.thrown);
    }
    var metaDesc, _ := RetryApi(MetaFn(meta, AsWritten), DefaultMaxRetries);
    if metaDesc.Threw? {
      return Failure(metaDesc.thrown);
    }
    r := Success(Post(t.title, t.slug, content.value, metaDesc.value, stamp.date, stamp.readTime));
  }

  /** A generated post copies its topic's title and slug, its body is the
      text some call of the body request resolved with, and its meta
      description is the cleaned text of some meta reply: free of `"`, and
      free of surrounding white space when the corrected cleanup is applied
      or that reply had no `"`. */
  lemma {:induction false} TopicPostFields(t: Topic, body: Fn<string>, meta: Fn<string>, stamp: Stamp, c: Cleanup)
    requires TopicPost(t, body, meta, stamp, c).Success?
    ensures var p := TopicPost(t, body, meta, stamp, c).value;
      && p.title == t.title && p.slug == t.slug
      && p.date == stamp.date && p.readTime == stamp.readTime
      && (exists k :: 0 <= k < DefaultMaxRetries && body(k) == Resolved(p.content))
      && (exists k :: 0 <= k < DefaultMaxRetries && meta(k).Resolved? && p.metaDescription == Clean(c, meta(k).value)
                       && (c == Corrected || '"' !in meta(k).value ==> Trimmed(p.metaDescription)))
      && '"' !in p.metaDescription
  {
    SettlesAsSomeAttempt(body, DefaultMaxRetries);
    SettlesAsSomeAttempt(MetaFn(meta, c), DefaultMaxRetries);
    MetaFnMeaning(meta, c);
    var p := TopicPost(t, body, meta, stamp, c).value;
    var kb :| 0 <= kb < DefaultMaxRetries && RetrySpec(body, DefaultMaxRetries).outcome == Settle(body(kb));
    assert body(kb) == Resolved(p.content);
    var km :| 0 <= km < DefaultMaxRetries && RetrySpec(MetaFn(meta, c), DefaultMaxRetries).outcome == Settle(MetaFn(meta, c)(km));
    assert meta(km).Resolved?;
    assert p.metaDescription == Clean(c, meta(km).value);
  }

  /** The results of the topics' posts, in topic order, the i-th using the
      replies `bodies(i)` and `metas(i)` and the stamp `stamps(i)`. */
  function TopicResults(topics: seq<Topic>, bodies: nat -> Fn<string>, metas: nat -> Fn<string>,
                        stamps: nat -> Stamp, c: Cleanup): seq<Result<Post, Thrown>>
  {
    seq(|topics|, i requires 0 <= i < |topics| => TopicPost(topics[i], bodies(i), metas(i), stamps(i), c))
  }

  /** Running steps in order until the first error: every value in order,
      or the first error. */
  function Collect<T, E>(rs: seq<Result<T, E>>): Result<seq<T>, E> {
    if |rs| == 0 then Success([])
    else
      match Collect(rs[..|rs| - 1])
      case Failure(e) => Failure(e)
      case Success(vs) =>
        match rs[|rs| - 1]
        case Failure(e) => Failure(e)
        case Success(v) => Success(vs + [v])
  }

  /** What `generateBlogPosts` returns: the posts in topic order, or the
      first error thrown; `BlogPostsSpec(…, AsWritten)` is the generator as
      it is, `BlogPostsSpec(…, Corrected)` the generator with the corrected
      meta cleanup. */
  function BlogPostsSpec(topics: seq<Topic>, bodies: nat -> Fn<string>, metas: nat -> Fn<string>,
                         stamps: nat -> Stamp, c: Cleanup): Result<seq<Post>, Thrown>
  {
    Collect(TopicResults(topics, bodies, metas, stamps, c))
  }

  method GenerateBlogPosts(topics: seq<Topic>, bodies: nat -> Fn<string>, metas: nat -> Fn<string>,
                           stamps: nat -> Stamp)
    returns (r: Result<seq<Post>, Thrown>)
    ensures r == BlogPostsSpec(topics, bodies, metas, stamps, AsWritten)
  {
    ghost var rs := TopicResults(topics, bodies, metas, stamps, AsWritten);
    var posts := [];
    var i := 0;
    while i < |topics|
      invariant 0 <= i <= |topics|
      invariant Collect(rs[..i]) == Success(posts)
    {
      assert rs[..i + 1][..i] == rs[..i];
      var post := GenerateTopicPost(topics[i], bodies(i), metas(i), stamps(i));
      if post.Failure? {
        FailureSticks(rs, i + 1);
        assert rs[..|rs|] == rs;
        return Failure(post.error);
      }
      posts := posts + [post.value];
      i := i + 1;
    }
    assert rs[..i] == rs;
    r := Success(posts);
  }

  /** Once a prefix of the steps has failed, so has the whole run, with the
      same error. */
  lemma {:induction false} FailureSticks<T, E>(rs: seq<Result<T, E>>, n: nat)
    requires n <= |rs|
    requires Collect(rs[..n]).Failure?
    ensures Collect(rs) == Collect(rs[..n])
    decreases |rs| - n
  {
    if n == |rs| {
      assert rs[..n] == rs;
    } else {
      assert rs[..n + 1][..n] == rs[..n];
      FailureSticks(rs, n + 1);
    }
  }

  /** A run succeeds exactly when every step does; it then holds every
      step's value, in order. */
  lemma {:induction false} CollectSucceeds<T, E>(rs: seq<Result<T, E>>)
    ensures Collect(rs).Success? <==> forall i :: 0 <= i < |rs| ==> rs[i].Success?
    ensures Collect(rs).Success? ==>
      |Collect(rs).value| == |rs| && forall i :: 0 <= i < |rs| ==> Success(Collect(rs).value[i]) == rs[i]
  {
    if |rs| > 0 {
      var init := rs[..|rs| - 1];
      CollectSucceeds(init);
      assert forall i :: 0 <= i < |init| ==> init[i] == rs[i];
    }
  }

  /** A failed run reports the error of its first failed step. */
  lemma {:induction false} CollectFails<T, E>(rs: seq<Result<T, E>>)
    requires Collect(rs).Failure?
    ensures exists k :: (0 <= k < |rs| && rs[k] == Failure(Collect(rs).error)
                         && forall i :: 0 <= i < k ==> rs[i].Success?)
  {
    var init := rs[..|rs| - 1];
    assert forall i :: 0 <= i < |init| ==> init[i] == rs[i];
    if Collect(init).Failure? {
      CollectFails(init);
      var k :| 0 <= k < |init| && init[k] == Failure(Collect(init).error)
               && forall i :: 0 <= i < k ==> init[i].Success?;
      assert rs[k] == init[k];
    } else {
      CollectSucceeds(init);
    }
  }

  /** `generateBlogPosts` succeeds exactly when every topic's post does, and
      then yields one post per topic, in topic order: the i-th carries the
      i-th topic's title and slug, and a meta description without `"`; that
      description has no surrounding white space under the corrected
      cleanup, and under the one as written when the topic's meta replies
      have no `"`. */
  lemma BlogPostsSucceed(topics: seq<Topic>, bodies: nat -> Fn<string>, metas: nat -> Fn<string>,
                         stamps: nat -> Stamp, c: Cleanup)
    ensures BlogPostsSpec(topics, bodies, metas, stamps, c).Success? <==>
      forall i :: 0 <= i < |topics| ==> TopicPost(topics[i], bodies(i), metas(i), stamps(i), c).Success?
    ensures BlogPostsSpec(topics, bodies, metas, stamps, c).Success? ==>
      var posts := BlogPostsSpec(topics, bodies, metas, stamps, c).value;
      && |posts| == |topics|
      && (forall i :: 0 <= i < |topics| ==> Success(posts[i]) == TopicPost(topics[i], bodies(i), metas(i), stamps(i), c))
      && (forall i :: 0 <= i < |topics| ==> posts[i].title == topics[i].title && posts[i].slug == topics[i].slug)
      && (forall i :: 0 <= i < |topics| ==> '"' !in posts[i].metaDescription)
      && (forall i :: 0 <= i < |topics| && (c == Corrected || QuoteFree(metas(i))) ==> Trimmed(posts[i].metaDescription))
  {
    var rs := TopicResults(topics, bodies, metas, stamps, c);
    CollectSucceeds(rs);
    if Collect(rs).Success? {
      forall i | 0 <= i < |topics|
        ensures Collect(rs).value[i].title == topics[i].title && Collect(rs).value[i].slug == topics[i].slug
        ensures '"' !in Collect(rs).value[i].metaDescription
        ensures c == Corrected || QuoteFree(metas(i)) ==> Trimmed(Collect(rs).value[i].metaDescription)
      {
        TopicPostFields(topics[i], bodies(i), metas(i), stamps(i), c);
      }
    }
  }

  /** No reply of the meta call contains `"`. */
  ghost predicate QuoteFree(meta: Fn<string>) {
    forall a: nat :: meta(a).Resolved? ==> '"' !in meta(a).value
  }

  /** A failed `generateBlogPosts` throws the error of the first topic whose
      post failed; the topics before it all succeeded. */
  lemma BlogPostsFail(topics: seq<Topic>, bodies: nat -> Fn<string>, metas: nat -> Fn<string>,
                      stamps: nat -> Stamp, c: Cleanup)
    requires BlogPostsSpec(topics, bodies, metas, stamps, c).Failure?
    ensures exists k :: (0 <= k < |topics|
      && TopicPost(topics[k], bodies(k), metas(k), stamps(k), c) == Failure(BlogPostsSpec(topics, bodies, metas, stamps, c).error)
      && forall i :: 0 <= i < k ==> TopicPost(topics[i], bodies(i), metas(i), stamps(i), c).Success?)
  {
    var rs := TopicResults(topics, bodies, metas, stamps, c);
    assert forall i :: 0 <= i < |topics| ==> rs[i] == TopicPost(topics[i], bodies(i), metas(i), stamps(i), c);
    CollectFails(rs);
  }
}

# Numerology Hub content pipeline, modelled in Dafny

The Numerology Hub static blog is built in three stages:

- `generate-content.ts` asks a text model for six blog posts. Each post gets an HTML body and a meta description. A retry helper, `retryAPI`, backs off exponentially on HTTP 503 and 429.
- `generate-images.py` asks an image model for one picture per post and for an author headshot. A retry helper of its own, `retry_generate_image`, reads the first inline payload out of the response stream.
- `build.ts` renders the site into `build/`. It makes the homepage (a featured post and up to three recent ones), the blog index (one card per post), one page per post, and static pages. A post's body is cleaned first: links to the post itself are unwrapped, and `href="slug"` links to the other posts get their missing `.html`.

The model keeps the sequential logic of these stages and proves what each promises. Each remote model is an oracle function from the attempt number to that attempt's reply. A sleep is a `Wait` event in a trace. The image directory is a map from path to bytes. The set of existing build files is a `set<string>`. The site is a map from path to page.

Modules:

- `Common`: the Option and Result types and literal substring tests.
- `Backoff`: the shared call/wait schedule, and the first attempt at which a retry loop stops.
- `ImageRetry`: `retry_generate_image` and the payload extraction from the stream.
- `ImagePrompts`: the slug-to-prompt table with its fallback.
- `ImageBatch`: `generate_author_image` and `generate_blog_images`, over a file map.
- `ContentRetry`: `retryAPI`.
- `ContentClean`: JavaScript `trim`, quote removal, and the meta cleanup as written and as intended.
- `ContentPosts`: the topics and how `generateBlogPosts` assembles the posts. The meta cleanup is a parameter: `AsWritten` is line 125's order, which the methods follow, and `Corrected` is the intended order of the finding below.
- `Replace`: global replacement of one literal string, with its no-overlap lemmas.
- `HrefFix`: the `.html` fix for links to the other posts.
- `SelfLinks`: the removal of links to the post itself.
- `SiteBuild`: `generateHTML`'s base path, the homepage and blog index cards, and `buildBlogPosts`.

The imperative parts of the source are methods with loops:

- the two retry loops;
- the chunk scan;
- the per-post image loop;
- the topic loop;
- the per-post build loop, with its inner pass over all slugs.

Each method's `ensures` equates its result to a specification function. The lemmas state what that function promises.

`retry_generate_image` takes a payload only from the first part of the first candidate of a chunk (generate-images.py:49-55); other parts and candidates are not looked at. With `max_retries <= 0` it makes no call and returns `None`.

## Model

| member | source | states |
|---|---|---|
| Backoff.ScheduleAt | generate-images.py:60-64 | in the trace of `k` retried attempts, attempt `a` is a call followed by a wait of `unit * 2^a` |
| Backoff.CallsWaitsAppend | generate-images.py:31-64 | the calls and waits of a concatenated trace are the concatenations of the parts' calls and waits |
| Backoff.RunShape | generate-images.py:31-68 | `k` retried attempts and a final one make calls 0..k in order and waits `unit * 2^a` for a < k |
| Backoff.FirstStop | generate-images.py:31-61 | the attempt at which the loop stops is the first that is not transient or is the last permitted, and every attempt before it was transient |
| Backoff.FirstStopIs | generate-images.py:31-61 | any attempt satisfying those conditions is the stopping attempt |
| Common.Contains | generate-images.py:60 | Python's `t in s`: true exactly when `t` occurs in `s` at some position |
| ImageRetry.ChunkData | generate-images.py:49-55 | a chunk yields a payload only when it is non-empty |
| ImageRetry.FirstData | generate-images.py:44-57 | the stream yields no payload exactly when no chunk has one, and a yielded payload is non-empty |
| ImageRetry.FirstDataAt | generate-images.py:44-55 | the payload returned is that of the first chunk carrying one |
| ImageRetry.StreamPayload | generate-images.py:44-57 | the inner chunk loop returns the first chunk payload, or `None` when no chunk has one |
| ImageRetry.RetryGenerateImage | generate-images.py:29-68 | the retry loop's outcome and its call/sleep trace are those of the specification run |
| ImageRetry.Attempt | generate-images.py:32-68 | one try: no contract of its own; its meaning is in ImageRetry.ReturnsAfterTransientFailures, ImageRetry.RaisesOtherErrorsAtOnce and ImageRetry.ReturnedPayload |
| ImageRetry.RetrySpec | generate-images.py:29-68 | the loop's definition by its stop attempt: no contract of its own; its meaning is in ImageRetry.StopsAt, ImageRetry.GoesOn and ImageRetry.RetryBackoff |
| ImageRetry.IsTransientMessage | generate-images.py:60 | `'503' in str(e) or '429' in str(e)`: no contract of its own; its meaning is in ImageRetry.RetryBackoff and ImageRetry.RaisesOtherErrorsAtOnce |
| ImageRetry.StopsAt | generate-images.py:55-68 | when the loop stops at an attempt, the run ends with that attempt's outcome after the schedule of the attempts before it |
| ImageRetry.GoesOn | generate-images.py:60-64 | a transient failure before the last attempt does not change where the loop stops |
| ImageRetry.RetryBackoff | generate-images.py:31-64 | at most `max_retries` calls, on attempts 0, 1, 2, …; waits of 1, 2, 4, … seconds, one fewer than the calls; a call is repeated only after a transient failure that was not on the last attempt |
| ImageRetry.NoAttemptPermitted | generate-images.py:31-68 | with `max_retries <= 0` no call is made and the result is `None` |
| ImageRetry.ReturnsAfterTransientFailures | generate-images.py:44-64 | after `k` transient failures a completed stream is returned after `k` waits, with the stream's first payload or `None` |
| ImageRetry.RaisesWhenRetriesExhausted | generate-images.py:60-66 | when every permitted attempt fails transiently, the last error is raised after exactly `max_retries` calls |
| ImageRetry.RaisesOtherErrorsAtOnce | generate-images.py:67-68 | a non-transient error is raised on the attempt it occurs, with no further call and no sleep after it |
| ImageRetry.ReturnedPayload | generate-images.py:44-57 | a returned payload is non-empty and is the first payload of some permitted attempt's stream |
| ImagePrompts.PromptFor | generate-images.py:110-129 | `image_prompts.get(slug, fallback)`: no contract of its own; its meaning is in ImagePrompts.PromptLookup |
| ImagePrompts.PromptLookup | generate-images.py:110-129 | a post gets the table's entry when its slug is a key and the fallback otherwise; distinct keyed slugs get distinct prompts |
| ImageBatch.ImagePath | generate-images.py:136 | `images/{slug}.png`: no contract of its own; its meaning is in ImageBatch.ImagePathInjective and ImageBatch.SaveAllStores |
| ImageBatch.ImagePathInjective | generate-images.py:136 | distinct slugs are written to distinct files |
| ImageBatch.Writes | generate-images.py:135 | `if image_data:` after a returned call: no contract of its own; its meaning is in ImageBatch.GeneratePostImage and ImageBatch.SaveAllStores |
| ImageBatch.Saved | generate-images.py:135-137 | the file map after one post's write, or unchanged: no contract of its own; its meaning is in ImageBatch.GeneratePostImage, ImageBatch.SaveAllKeeps and ImageBatch.SaveAllStores |
| ImageBatch.GenerateAuthorImage | generate-images.py:70-98 | the helper runs once on the author prompt; `images/author.png` is written with its payload only when that payload is truthy; an error is caught and the directory is otherwise unchanged |
| ImageBatch.SaveAll | generate-images.py:124-143 | after the batch the directory holds the old paths plus exactly the paths of the posts that wrote |
| ImageBatch.PostCall | generate-images.py:125-134 | the prompt lookup and the helper run for one post: no contract of its own; its meaning is in ImageBatch.GeneratePostImage and ImageBatch.GenerateBlogImages |
| ImageBatch.GeneratePostImage | generate-images.py:125-143 | one post: the prompt from the table, one helper run, and a write of `images/<slug>.png` only for a truthy payload; errors are swallowed |
| ImageBatch.GenerateBlogImages | generate-images.py:100-143 | one helper run per post in document order, a failure not stopping later posts, and the directory that these runs' writes produce |
| ImageBatch.WrittenSnoc | generate-images.py:134-137 | the paths written by a log are those of its prefix plus those of its last entry |
| ImageBatch.SaveAllKeeps | generate-images.py:134-137 | a file that no post wrote keeps its old bytes |
| ImageBatch.SaveAllStores | generate-images.py:134-137 | with distinct slugs, a post whose payload is truthy leaves exactly that payload in its file |
| ImageBatch.TwoPostExample | generate-images.py:124-143 | a post with no payload writes nothing and the next post is still written |
| ContentRetry.Retryable | src/generate-content.ts:33 | `error.status === 503 || error.status === 429`: no contract of its own; used by ContentRetry.RetryBackoff and ContentRetry.RethrowsUnchanged |
| ContentRetry.RetrySpec | src/generate-content.ts:28-43 | the loop's definition by its stop attempt: no contract of its own; its meaning is in ContentRetry.RetryBackoff, ContentRetry.ReturnsFirstSuccess and ContentRetry.RethrowsUnchanged |
| ContentRetry.RetryApi | src/generate-content.ts:28-43 | the retry loop's outcome and its call/wait trace are those of the specification run |
| ContentRetry.RetryBackoff | src/generate-content.ts:29-36 | at most `maxRetries` calls, on attempts 0, 1, 2, …; waits of 1000, 2000, 4000, … ms, one fewer than the calls; a call is repeated only after a 503/429 that was not on the last attempt |
| ContentRetry.NoAttemptPermitted | src/generate-content.ts:29-42 | with `maxRetries <= 0` no call is made and `Max retries exceeded` is thrown |
| ContentRetry.ReturnsFirstSuccess | src/generate-content.ts:30-31 | after `k` retryable rejections, the first resolved value is returned |
| ContentRetry.RethrowsUnchanged | src/generate-content.ts:37-38 | another error, or a 503/429 on the last attempt, is thrown unchanged with no further call |
| ContentRetry.SettlesAsSomeAttempt | src/generate-content.ts:28-43 | with at least one attempt, the helper never throws `Max retries exceeded`; it settles as some permitted attempt settled |
| ContentClean.LeadingSpace | src/generate-content.ts:125 | the length of the leading run of white space |
| ContentClean.TrailingStart | src/generate-content.ts:125 | where the trailing run of white space starts |
| ContentClean.Trim | src/generate-content.ts:125 | `trim()` leaves no white space at either end |
| ContentClean.TrimSlice | src/generate-content.ts:125 | `trim()` removes exactly the leading and trailing white space and keeps the middle |
| ContentClean.TrimEmpty | src/generate-content.ts:125 | `trim()` is empty exactly for an all-space text |
| ContentClean.RemoveQuotes | src/generate-content.ts:125 | `replace(/"/g, '')` leaves no `"`, and a text without `"` is unchanged |
| ContentClean.RemoveQuotesCount | src/generate-content.ts:125 | quote removal keeps every other character, as often as it occurred |
| ContentClean.RemoveQuotesAppend | src/generate-content.ts:125 | quote removal works piece by piece |
| ContentClean.CleanMetaAsWritten | src/generate-content.ts:125 | the cleanup as written leaves no `"`, and is trimmed when the reply had no `"` |
| ContentClean.AsWrittenKeepsPadding | src/generate-content.ts:125 | a quoted reply with a space inside the quotes comes out with a leading space |
| ContentClean.TrimQuoted | src/generate-content.ts:125 | `trim()` leaves a quoted text unchanged |
| ContentClean.RemoveQuotesPadded | src/generate-content.ts:125 | removing the quotes of `" t"` leaves ` t` |
| ContentClean.CleanMeta | src/generate-content.ts:125 | the corrected cleanup leaves no `"` and no white space at either end, and agrees with the as-written one on quote-free replies |
| ContentClean.CleanMetaAgrees | src/generate-content.ts:125 | on a quote-free reply both cleanups are `trim()`, and a trimmed reply is kept as it is |
| ContentPosts.Clean | src/generate-content.ts:125 | the cleanup a run applies: as written it leaves no `"` and is trimmed on a reply without `"`; corrected it leaves no `"` and is always trimmed |
| ContentPosts.TopicsHavePrompts | src/generate-content.ts:49-80 | there are six topics, and their slugs are exactly the image prompt table's keys |
| ContentPosts.MetaFn | src/generate-content.ts:123-126 | the meta call with the cleanup applied to each reply: no contract of its own; its meaning is in ContentPosts.TopicPostFields |
| ContentPosts.TopicPost | src/generate-content.ts:85-144 | one topic's post: no contract of its own; its meaning is in ContentPosts.TopicPostFields |
| ContentPosts.GenerateTopicPost | src/generate-content.ts:85-144 | one topic's post is the result of its body call and then its meta call, the meta reply cleaned as line 125 does it |
| ContentPosts.TopicPostFields | src/generate-content.ts:115-144 | a post copies its topic's title and slug; its body is a reply of the body call; its meta description is a cleaned reply of the meta call, without `"`, and trimmed when that reply had no `"` (always, under the corrected cleanup) |
| ContentPosts.GenerateBlogPosts | src/generate-content.ts:84-149 | the loop is its specification with the cleanup as written: the posts in topic order, or the first error |
| ContentPosts.BlogPostsSpec | src/generate-content.ts:84-149 | the posts of all topics, or the first error: no contract of its own; its meaning is in ContentPosts.BlogPostsSucceed and ContentPosts.BlogPostsFail |
| ContentPosts.TopicResults | src/generate-content.ts:84-147 | the per-topic results in topic order: no contract of its own; its meaning is in ContentPosts.BlogPostsSucceed and ContentPosts.BlogPostsFail |
| ContentPosts.Collect | src/generate-content.ts:84-147 | the sequential awaits, stopping at the first throw: no contract of its own; its meaning is in ContentPosts.FailureSticks, ContentPosts.CollectSucceeds and ContentPosts.CollectFails |
| ContentPosts.FailureSticks | src/generate-content.ts:84-147 | once a topic fails, the later topics do not change the result |
| ContentPosts.CollectSucceeds | src/generate-content.ts:84-149 | collecting succeeds exactly when every topic succeeded, and keeps the order |
| ContentPosts.CollectFails | src/generate-content.ts:84-147 | a failed collection carries the first failing topic's error |
| ContentPosts.BlogPostsSucceed | src/generate-content.ts:84-149 | success exactly when every topic's post succeeded; then one post per topic, in topic order, with the topic's title and slug and a meta description without `"`, trimmed when the topic's meta replies have no `"` (always, under the corrected cleanup) |
| ContentPosts.BlogPostsFail | src/generate-content.ts:84-147 | a failure throws the error of the first failing topic, after all earlier topics succeeded |
| Replace.ReplaceAll | src/build.ts:350-353 | a global replacement of one literal string, left to right without overlaps: no contract of its own; its meaning is in Replace.ReplaceAbsent, Replace.ReplacedPrefix and Replace.NoNewOccurrence |
| Replace.ReplaceAbsent | src/build.ts:350-353 | a text without the pattern is unchanged |
| Replace.ReplacedPrefix | src/build.ts:350-353 | a replaced text begins with a piece of a string that cannot overlap the replacement only if the original did |
| Replace.NoNewOccurrence | src/build.ts:350-353 | replacement creates no occurrence of a string that cannot overlap the replacement, and leaves no occurrence of the pattern |
| Replace.AbsentAfterReplacement | src/build.ts:350-353 | a string absent from the rest and unable to overlap the replacement is absent after it |
| Replace.AbsentAfterKept | src/build.ts:350-353 | keeping one character adds no occurrence |
| Replace.AbsentCons | src/build.ts:350-353 | one character in front adds no occurrence other than one at the front |
| Replace.NotAtFront | src/build.ts:350-353 | the replaced text does not begin with the string |
| Replace.PrefixSplit | src/build.ts:350-353 | an occurrence at the front of `u + x` that is longer than `u` continues at the front of `x` |
| Replace.ReplaceAppend | src/build.ts:350-353 | where no occurrence can straddle the boundary, replacing works on both sides separately |
| Replace.CrossingFree | src/build.ts:350-353 | no occurrence of the pattern can straddle into a text that starts with a string it cannot overlap |
| Replace.ReplaceKeep | src/build.ts:350-353 | a piece the pattern cannot overlap passes through unchanged |
| HrefFix.SlugLinkPlain | src/build.ts:351 | a slug with or without `.html` has no quote or `=` in it |
| HrefFix.ExtOf | src/build.ts:351 | a link target has a `.` exactly when it carries `.html` |
| HrefFix.TargetUnique | src/build.ts:351 | a link target determines its slug and extension |
| HrefFix.HrefShape | src/build.ts:351-352 | `href="b"` has its `=` and its quotes at fixed positions and `b` between them |
| HrefFix.HrefsSeparate | src/build.ts:351-352 | two `href="…"` attributes cannot overlap except at the same position, and then name the same target |
| HrefFix.FixStep | src/build.ts:347-354 | the `forEach` callback for one slug: no contract of its own; its meaning is in HrefFix.FixStepAround and HrefFix.StepAddsNoLink |
| HrefFix.FixStepAround | src/build.ts:348-353 | one slug's rewrite changes an `href` to that slug, and only it, and leaves the text around it alone |
| HrefFix.FixHrefs | src/build.ts:346-355 | the `allSlugs.forEach` pass: no contract of its own; its meaning is in HrefFix.FixHrefsAround, HrefFix.FixHrefsComplete and HrefFix.FixHrefsIdempotent |
| HrefFix.FixHrefsAround | src/build.ts:346-355 | the whole pass adds `.html` to an `href` of another post's slug and keeps the post's own slug, unknown slugs and targets already ending in `.html` |
| HrefFix.FixHrefsComplete | src/build.ts:346-355 | after the pass no `href="slug"` of any other post remains |
| HrefFix.StepAddsNoLink | src/build.ts:350-353 | rewriting one slug creates no bare `href` to a slug that was absent |
| HrefFix.FixHrefsUnchanged | src/build.ts:346-355 | a body with no bare `href` to another post is unchanged |
| HrefFix.FixHrefsIdempotent | src/build.ts:346-355 | running the pass on its own output changes nothing |
| SelfLinks.GtIndex | src/build.ts:338 | the first `>`, found exactly when there is one |
| SelfLinks.CloseIndex | src/build.ts:338 | a found `</a>` lies inside the text |
| SelfLinks.CloseIndexFirst | src/build.ts:338 | the lazy `.*?</a>` ends at the first `</a>` on the same line, and fails when every `</a>` follows a line break |
| SelfLinks.LinkEnd | src/build.ts:338 | a match starts with the opener and ends after it |
| SelfLinks.StripTags | src/build.ts:341 | removing tags never lengthens the match |
| SelfLinks.SelfOpenerShape | src/build.ts:338 | the self-link opener is an opening anchor tag without `>` |
| SelfLinks.StripPlain | src/build.ts:341 | text without `<` passes through tag removal |
| SelfLinks.PlainTextPasses | src/build.ts:337-343 | text without `<` passes through link removal |
| SelfLinks.PlainNotLink | src/build.ts:338 | no match starts at a character other than `<` |
| SelfLinks.RemoveLinks | src/build.ts:337-343 | the global scan unwrapping every link of one opener: no contract of its own; its meaning is in SelfLinks.LinkUnwrapped, SelfLinks.PlainTextPasses and SelfLinks.NoLinkUnchanged |
| SelfLinks.NoLinkUnchanged | src/build.ts:337-343 | a body without the opener is unchanged |
| SelfLinks.GtAfter | src/build.ts:338 | `[^>]*>` stops at the first `>` |
| SelfLinks.CloseAfter | src/build.ts:338 | `.*?</a>` stops at the first `</a>` after text with no `</a>` and no line break of its own |
| SelfLinks.LinkMatch | src/build.ts:338 | a whole link whose text has no `</a>` and no line break matches up to its `</a>` |
| SelfLinks.StripOpenTag | src/build.ts:341 | the opening tag is removed |
| SelfLinks.StripClose | src/build.ts:341 | `</a>` is removed |
| SelfLinks.GtPrefix | src/build.ts:338 | the first `>` of a text stays the first when more text follows |
| SelfLinks.StripBeforeClose | src/build.ts:341 | when every `<a` of a link text is closed inside it, stripping the text with its `</a>` equals stripping the text alone |
| SelfLinks.StripPlainLink | src/build.ts:341 | stripping a tag-free link text with its `</a>` leaves the text |
| SelfLinks.OpenerAttrs | src/build.ts:338 | an opener followed by attributes is still an opening tag without `>` |
| SelfLinks.LinkUnwrapped | src/build.ts:337-343 | a link opened by the opener, whose text has no `</a>` and no line break, is replaced by its text and closing tag with the anchor tags stripped, and the scan goes on after it |
| SelfLinks.SelfLinkUnwrapped | src/build.ts:336-343 | a link to the post itself is unwrapped and the rest is cleaned on: its text, markup included, comes out with the anchor tags stripped; when every `<a` inside it is closed that is the text stripped on its own, and text without tags stays verbatim |
| SelfLinks.RemoveSelfLinks | src/build.ts:337-343 | the self-link removal: no contract of its own; its meaning is in SelfLinks.SelfLinkUnwrapped, SelfLinks.NoSelfLinkUnchanged and SelfLinks.OtherLinkKept |
| SelfLinks.NoSelfLinkUnchanged | src/build.ts:336-343 | a body without a self-link opener is unchanged |
| SelfLinks.PlainTextKept | src/build.ts:336-343 | text without `<` is kept by self-link removal |
| SelfLinks.NoLinkToOther | src/build.ts:338 | a link to another slug does not match the self-link pattern |
| SelfLinks.SkipThenPlain | src/build.ts:337-343 | after skipping one character, plain text is kept |
| SelfLinks.TagPasses | src/build.ts:337-343 | a tag that does not match, with no `<` after its first character, is kept as it is |
| SelfLinks.OtherLinkKept | src/build.ts:336-343 | the opening tag of a link to another post is kept unchanged |
| SelfLinks.NoLtAfterFirst | src/build.ts:338 | an opening tag has `<` only as its first character |
| SelfLinks.OpenersDiffer | src/build.ts:338 | one slug's opener begins another's only when the slugs are equal |
| SiteBuild.BasePath | src/build.ts:77 | `./` for the homepage, `../` otherwise: no contract of its own; its meaning is in SiteBuild.BasePathResolves |
| SiteBuild.BasePathResolves | src/build.ts:77 | a path under `basePath` reaches the intended site file from the page's own directory (`./` from the root, `../` from `blog/`) and not from the other directory |
| SiteBuild.LinkTargets | src/build.ts:89-140 | the template's eleven link targets: no contract of its own; its meaning is in SiteBuild.LinkTargetsUndotted and SiteBuild.GenerateHTML |
| SiteBuild.LinkTargetsUndotted | src/build.ts:89-140 | the stylesheet, nav, footer and script targets are site paths not starting with `.` |
| SiteBuild.GenerateHTML | src/build.ts:76-143 | the title gets the site suffix, the content is kept, and every stylesheet, nav, footer and script link reaches its site file from the page's directory |
| SiteBuild.FirstChar | src/build.ts:194 | `charAt(0)`: no contract of its own; its meaning is in SiteBuild.CardsAgree and SiteBuild.PostPageContents |
| SiteBuild.PostPagePath | src/build.ts:401 | `blog/{slug}.html`: no contract of its own; its meaning is in SiteBuild.PostPagePathInjective and SiteBuild.PagePaths |
| SiteBuild.PostVisual | src/build.ts:191-195 | the post's image when the build has it, else the title's initial: no contract of its own; its meaning is in SiteBuild.CardsAgree |
| SiteBuild.HomeCard | src/build.ts:188-235 | a homepage card, featured or recent: no contract of its own; its meaning is in SiteBuild.CardsAgree and SiteBuild.HomepageCards |
| SiteBuild.IndexCard | src/build.ts:295-300 | a blog index card: no contract of its own; its meaning is in SiteBuild.CardsAgree and SiteBuild.BlogIndexCards |
| SiteBuild.CardFor | src/build.ts:188-195 | what a card of a post must show from its directory (page link, image or initial, fields): the property that SiteBuild.CardsAgree, SiteBuild.HomepageCards and SiteBuild.BlogIndexCards prove of the cards |
| SiteBuild.CardsAgree | src/build.ts:188-300 | a homepage card and a blog index card reach the post's page and its image from where they are shown; without an image they show the title's first character |
| SiteBuild.Featured | src/build.ts:150 | `posts[0]`, or none for no posts: no contract of its own; its meaning is in SiteBuild.HomepageSelection |
| SiteBuild.Recent | src/build.ts:151 | `posts.slice(1, 4)`: no contract of its own; its meaning is in SiteBuild.HomepageSelection |
| SiteBuild.HomepageSelection | src/build.ts:149-151 | no featured post exactly when there are no posts, else `posts[0]`; recent is `posts[1..4)`, at most 3 posts, never the featured one when slugs are distinct |
| SiteBuild.BuildHomepage | src/build.ts:146-269 | the homepage: no contract of its own; its meaning is in SiteBuild.HomepageCards and SiteBuild.CardsAgree |
| SiteBuild.HomepageCards | src/build.ts:146-266 | the featured section is empty exactly without posts; the featured and recent cards are those of `posts[0]` and `posts[1..4)`, placed at the root |
| SiteBuild.BuildBlogIndex | src/build.ts:272-324 | the blog index: no contract of its own; its meaning is in SiteBuild.BlogIndexCards |
| SiteBuild.BlogIndexCards | src/build.ts:272-320 | one card per post, in the document's order, each placed in `blog/` |
| SiteBuild.CleanBody | src/build.ts:334-355 | self-link removal, then the href fix: no contract of its own; its meaning is in SiteBuild.PostPageContents |
| SiteBuild.PagePaths | src/build.ts:401 | every post's page path is among the written paths |
| SiteBuild.PagePathsMeaning | src/build.ts:401 | the written paths are exactly the posts' `blog/<slug>.html` |
| SiteBuild.PostPages | src/build.ts:332-403 | the built site has the old paths plus exactly the posts' page paths |
| SiteBuild.PostPagePathInjective | src/build.ts:401 | distinct slugs have distinct page paths |
| SiteBuild.PostPagesStore | src/build.ts:332-403 | with distinct slugs, each post's path holds that post's page |
| SiteBuild.PostPagesKeep | src/build.ts:332-403 | a page that no post names is unchanged |
| SiteBuild.PostPageContents | src/build.ts:336-400 | a post page has the post's title, links reaching their targets from `blog/`, the post image exactly when it exists, the author picture or initial, and the cleaned body; the body has no bare `href` to another post and is left alone by another href pass |
| SiteBuild.PostPage | src/build.ts:357-400 | a post's page with its cleaned body: no contract of its own; its meaning is in SiteBuild.PostPageContents |
| SiteBuild.ArticlePage | src/build.ts:361-400 | the article template around a body: no contract of its own; its meaning is in SiteBuild.PostPageContents |
| SiteBuild.FixLinks | src/build.ts:346-355 | the `allSlugs.forEach` pass equals the href fix over all slugs |
| SiteBuild.BuildBlogPosts | src/build.ts:327-404 | the build loop writes exactly the specified post pages |

## Left out

- Remote model calls: replies are given as inputs. Prompt wording is left out, because a prompt is only sent, never inspected. A prompt is identified by which table entry, the fallback, or the author prompt it is.
- The model does not perform sleeps, `setTimeout` or async scheduling (`Promise.all`). The intended waits are recorded in the trace.
- File I/O is not modelled: `save_image`, `fs.writeFile`, `fs.mkdir`, `fileExists`, `loadContent`, the JSON save, and reading `content.json`. Existing files are a set, written files a map.
- `main`, credential and `dotenv` loading, `process.exit`, logging and the Windows console fix are left out; they perform no computation.
- `generateAuthorBio`, `generateCSS`, `generateJS`, the browser script and the deploy script are left out; they are not part of this core.
- Static pages are not modelled. They are built like the homepage, at the root with `isHomepage` true (src/build.ts:501-504), and `SiteBuild.BasePathResolves` covers that case.
- Random dates and read times, and `toLocaleDateString`, are not modelled (they involve floats and locale). They are a given `Stamp` per topic.
- Pages are kept as their parts (title, links, main content), not as HTML text. The card and page markup is left out.
- The `|| []` default for a missing `posts` field is left out. Posts are a given sequence.
- SelfLinks.RemoveSelfLinks: the `gi` flag is not modelled. Matching is literal and lowercase, so a self-link written in upper case is not unwrapped by the model, while the source unwraps it. Slugs are assumed to be lowercase letters, digits and `-`, as the content uses, so the slug needs no regex escaping.
- HrefFix.FixHrefs: case-insensitive matching is left out in the same way. The lookahead `(?!\.html)` of src/build.ts:351 is implied by the closing quote, so the fix is a literal replacement.
- SelfLinks.StripTags: `<a[^>]*>` also removes tags such as `<abbr …>` inside the link text, and the model does the same.
- SelfLinks.CloseIndex: `.*?` does not cross a line break, as in the source, so a link whose text contains one is not unwrapped.
- SiteBuild.FirstChar: `charAt(0)` counts UTF-16 code units, and the model takes the first character of the string.
- ImageBatch.SaveAllStores: requires distinct slugs. With duplicate slugs the later post's image overwrites the earlier one's in both the source and `SaveAll`. The six topics have distinct slugs.
- SiteBuild.PostPagesStore: requires distinct slugs. With duplicate slugs the later post's page overwrites the earlier, and the model's `PostPages` does the same. A post named `index` overwrites `blog/index.html` in both.
- ContentRetry.ApiError: every rejection is an error object with an optional `status`. A rejection with `null` or `undefined` is not modelled: reading `error.status` at src/generate-content.ts:33 would itself throw a TypeError. The SDK always rejects with an error object.
- Errors raised while building the request (`types.Content`, `GenerateContentConfig`) are not modelled; an error is one the stream raises. A chunk whose `candidates` is `None` is modelled as one with an empty list.

## Findings

| source | as written | input that shows it | evidently intended | confidence | as-written member | corrected member |
|---|---|---|---|---|---|---|
| src/generate-content.ts:125 | `text().trim().replace(/"/g, '')` trims before it removes the quotes | a reply `" Discover your numbers"` (a quoted text with a space inside the opening quote) becomes ` Discover your numbers`, with a leading space | the meta description has no quotes and no white space at either end: remove the quotes, then trim | not executed | ContentClean.AsWrittenKeepsPadding | ContentClean.CleanMeta |

/** The image generator's drivers: the slug-to-prompt table with its
    fallback, the author headshot, and one image per blog post. The output
    directory is a map from file path to the bytes last written there. */
module ImageBatch {
  import opened Common
  import opened Backoff
  import opened ImageRetry
  import opened ImagePrompts

  type Files = map<string, Bytes>

  /** The fields of a `posts` entry of the content document that the batch reads. */
  datatype Entry = Entry(title: string, slug: string)

  /** The remote model as one helper call sees it: its replies to a prompt. */
  type Session = Prompt -> Service

  /** What the batch did for one post: the prompt it sent and the run of the
      retry helper. */
  datatype PostRun = PostRun(slug: string, prompt: Prompt, run: Run)

  const AuthorImagePath: string := "images/author.png"

  function ImagePath(slug: string): string {
    "images/" + slug + ".png"
  }

  lemma ImagePathInjective(a: string, b: string)
    ensures ImagePath(a) == ImagePath(b) ==> a == b
  {
    if ImagePath(a) == ImagePath(b) {
      assert |a| == |b|;
      assert a == ImagePath(a)[7..7 + |a|];
      assert b == ImagePath(b)[7..7 + |b|];
    }
  }

  /** The payload the driver writes for an outcome: only a returned, truthy
      (non-empty) payload. */
  predicate Writes(o: Outcome) {
    o.Returned? && o.data.Some? && |o.data.value| > 0
  }

  function Saved(files: Files, path: string, o: Outcome): Files {
    if Writes(o) then files[path := o.data.value] else files
  }

  /** `generate_author_image`: the outcome of the helper on the author
      prompt decides whether `images/author.png` is written; an error is
      caught, so the caller always gets the directory back. */
  method GenerateAuthorImage(session: Session, files: Files) returns (files': Files, run: Run)
    ensures run == RetrySpec(session(AuthorPrompt), DefaultMaxRetries)
    ensures Writes(run.outcome) ==> files' == files[AuthorImagePath := run.outcome.data.value]
    ensures !Writes(run.outcome) ==> files' == files
  {
    var outcome, trace := RetryGenerateImage(session(AuthorPrompt), DefaultMaxRetries);
    run := Run(outcome, trace);
    files' := Saved(files, AuthorImagePath, outcome);
  }

  /** The directory after the per-post writes of `log`, in order: the old
      files plus one image per post whose helper call returned a payload,
      and no other path. */
  function SaveAll(files: Files, log: seq<PostRun>): (r: Files)
    ensures r.Keys == files.Keys + Written(log)
  {
    if |log| == 0 then files
    else
      var last := log[|log| - 1];
      WrittenSnoc(log);
      Saved(SaveAll(files, log[..|log| - 1]), ImagePath(last.slug), last.run.outcome)
  }

  lemma SaveAllSnoc(files: Files, log: seq<PostRun>, r: PostRun)
    ensures SaveAll(files, log + [r]) == Saved(SaveAll(files, log), ImagePath(r.slug), r.run.outcome)
  {
    assert (log + [r])[..|log|] == log;
  }

  /** The record of the helper call the batch makes for `post`. */
  function PostCall(post: Entry, session: Session): PostRun {
    PostRun(post.slug, PromptFor(post.slug), RetrySpec(session(PromptFor(post.slug)), DefaultMaxRetries))
  }

  /** The body of the batch loop for one post: look up the prompt, call
      the helper, and write the image only for a truthy payload; an error of
      the helper is caught. */
  method GeneratePostImage(post: Entry, session: Session, files: Files) returns (files': Files, record: PostRun)
    ensures record == PostCall(post, session)
    ensures files' == Saved(files, ImagePath(post.slug), record.run.outcome)
  {
    var prompt := PromptFor(post.slug);
    var outcome, trace := RetryGenerateImage(session(prompt), DefaultMaxRetries);
    record := PostRun(post.slug, prompt, Run(outcome, trace));
    files' := files;
    if Writes(outcome) {
      files' := files'[ImagePath(post.slug) := outcome.data.value];
    }
  }

  /** `generate_blog_images`: one helper call per post, in document order,
      with the post's prompt; a failure or a missing payload skips the post
      and the batch goes on. */
  method GenerateBlogImages(posts: seq<Entry>, sessions: nat -> Session, files: Files)
    returns (files': Files, log: seq<PostRun>)
    ensures |log| == |posts|
    ensures forall i :: 0 <= i < |posts| ==> log[i] == PostCall(posts[i], sessions(i))
    ensures files' == SaveAll(files, log)
  {
    files' := files;
    log := [];
    var i := 0;
    while i < |posts|
      invariant 0 <= i <= |posts|
      invariant |log| == i
      invariant forall j :: 0 <= j < i ==> log[j] == PostCall(posts[j], sessions(j))
      invariant files' == SaveAll(files, log)
    {
      var record;
      SaveAllSnoc(files, log, PostCall(posts[i], sessions(i)));
      files', record := GeneratePostImage(posts[i], sessions(i), files');
      log := log + [record];
      i := i + 1;
    }
  }

  /** The paths written by a log. */
  function Written(log: seq<PostRun>): set<string> {
    set i | 0 <= i < |log| && Writes(log[i].run.outcome) :: ImagePath(log[i].slug)
  }

  predicate DistinctSlugs(log: seq<PostRun>) {
    forall i, j :: 0 <= i < j < |log| ==> log[i].slug != log[j].slug
  }

  /** The paths a log writes are those of its prefix plus the last entry's,
      when that one writes. */
  lemma WrittenSnoc(log: seq<PostRun>)
    requires |log| > 0
    ensures Written(log) == Written(log[..|log| - 1]) + Step(log[|log| - 1])
  {
    var init := log[..|log| - 1];
    var last := log[|log| - 1];
    forall p | p in Written(log) ensures p in Written(init) + Step(last) {
      var i :| 0 <= i < |log| && Writes(log[i].run.outcome) && p == ImagePath(log[i].slug);
      if i < |log| - 1 { assert init[i] == log[i]; }
    }
    forall p | p in Written(init) ensures p in Written(log) {
      var i :| 0 <= i < |init| && Writes(init[i].run.outcome) && p == ImagePath(init[i].slug);
      assert log[i] == init[i];
    }
  }

  /** The path one record writes, if any. */
  function Step(r: PostRun): set<string> {
    if Writes(r.run.outcome) then {ImagePath(r.slug)} else {}
  }

  /** Every path no post wrote (the failed or empty posts' among them) keeps
      what it had. */
  lemma {:induction false} SaveAllKeeps(files: Files, log: seq<PostRun>, p: string)
    requires p in files && p !in Written(log)
    ensures SaveAll(files, log)[p] == files[p]
  {
    if |log| > 0 {
      WrittenSnoc(log);
      SaveAllKeeps(files, log[..|log| - 1], p);
    }
  }

  /** With distinct slugs, the image of each post whose helper call returned
      a payload holds exactly the returned bytes. */
  lemma {:induction false} SaveAllStores(files: Files, log: seq<PostRun>, i: nat)
    requires DistinctSlugs(log)
    requires i < |log| && Writes(log[i].run.outcome)
    ensures SaveAll(files, log)[ImagePath(log[i].slug)] == log[i].run.outcome.data.value
  {
    var init := log[..|log| - 1];
    var last := log[|log| - 1];
    if i < |log| - 1 {
      assert init[i] == log[i];
      assert DistinctSlugs(init);
      SaveAllStores(files, init, i);
      ImagePathInjective(log[i].slug, last.slug);
    }
  }

  /** The example of a two-post document whose first post's stream carries no
      image and whose second post's stream carries one: only the second
      post's image is written, holding exactly those bytes. */
  lemma {:induction false} TwoPostExample(files: Files, data: Bytes, sessions: nat -> Session)
    requires |data| > 0
    requires forall p, n :: sessions(0)(p)(n) == Response([], Finished)
    requires forall p, n ::
      sessions(1)(p)(n) == Response([Chunk([Candidate(Some(Content([Part(Some(Blob(Some(data))))])))])], Finished)
    ensures var log := [PostRun("a", FallbackPrompt, RetrySpec(sessions(0)(FallbackPrompt), DefaultMaxRetries)),
                        PostRun("b", FallbackPrompt, RetrySpec(sessions(1)(FallbackPrompt), DefaultMaxRetries))];
            SaveAll(files, log) == files[ImagePath("b") := data]
  {
    var s0 := sessions(0)(FallbackPrompt);
    var s1 := sessions(1)(FallbackPrompt);
    assert s0(0) == Response([], Finished);
    assert Attempt(s0(0)) == Returned(None);
    var c := Chunk([Candidate(Some(Content([Part(Some(Blob(Some(data))))])))]);
    assert s1(0) == Response([c], Finished);
    assert FirstData(s1(0).chunks) == Some(data) by {
      assert ChunkData(c) == Some(data);
    }
    assert Attempt(s1(0)) == Returned(Some(data));
    ReturnsAfterTransientFailures(s0, DefaultMaxRetries, 0);
    ReturnsAfterTransientFailures(s1, DefaultMaxRetries, 0);
    var r0 := PostRun("a", FallbackPrompt, RetrySpec(s0, DefaultMaxRetries));
    var r1 := PostRun("b", FallbackPrompt, RetrySpec(s1, DefaultMaxRetries));
    assert !Writes(r0.run.outcome);
    assert Writes(r1.run.outcome);
    SaveAllSnoc(files, [], r0);
    SaveAllSnoc(files, [r0], r1);
    assert [r0] + [r1] == [r0, r1];
  }
}

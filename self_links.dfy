/** The first clean-up of `buildBlogPosts`: an anchor that links a post to
    itself, `<a href="<slug>.html" …>text</a>`, is replaced by what is left
    of it once every `<a …>` and `</a>` tag inside it is deleted, so its link
    text stays. The match is the one of the regular expression
    `<a href="<slug>\.html"[^>]*>.*?</a>`: the attributes run to the first
    `>`; the text runs to the first `</a>` and may not cross a line break. */
module SelfLinks {
  import opened Common
  import HrefFix

  function SelfOpener(slug: string): string {
    "<a href=\"" + slug + ".html\""
  }

  const CloseTag: string := "</a>"

  /** `s` starts with `</a>`. */
  predicate AtCloseTag(s: string) {
    |s| >= 4 && s[0] == '<' && s[1] == '/' && s[2] == 'a' && s[3] == '>'
  }

  /** `s` starts with `<a`. */
  predicate AtOpenTag(s: string) {
    |s| >= 2 && s[0] == '<' && s[1] == 'a'
  }

  /** The characters `.` does not match. */
  predicate LineTerminator(c: char) {
    c == '\n' || c == '\r' || c == '\U{2028}' || c == '\U{2029}'
  }

  /** The index of the first `>` of `s`. */
  function GtIndex(s: string): (r: Option<nat>)
    ensures r.None? <==> '>' !in s
    ensures r.Some? ==> r.value < |s| && s[r.value] == '>' && '>' !in s[..r.value]
  {
    if |s| == 0 then None
    else if s[0] == '>' then Some(0)
    else
      match GtIndex(s[1..])
      case None => None
      case Some(j) =>
        assert s[..j + 1] == [s[0]] + s[1..][..j];
        Some(j + 1)
  }

  /** Where the lazy `.*?</a>` ends its text: the first `</a>`, provided no
      line break comes before it (what that means is `CloseIndexFirst`). */
  function CloseIndex(s: string): (r: Option<nat>)
    ensures r.Some? ==> r.value + 4 <= |s|
    decreases |s|
  {
    if AtCloseTag(s) then Some(0)
    else if |s| == 0 || LineTerminator(s[0]) then None
    else
      match CloseIndex(s[1..])
      case None => None
      case Some(j) => Some(j + 1)
  }

  /** The text end found is a `</a>` with neither a `</a>` nor a line break
      before it; none is found exactly when a line break or the end of the
      input comes before every `</a>`. */
  lemma {:induction false} CloseIndexFirst(s: string)
    ensures CloseIndex(s).Some? ==> AtCloseTag(s[CloseIndex(s).value..])
    ensures CloseIndex(s).Some? ==> forall i :: 0 <= i < CloseIndex(s).value ==> !LineTerminator(s[i]) && !AtCloseTag(s[i..])
    ensures CloseIndex(s).None? ==> forall i :: 0 <= i <= |s| && AtCloseTag(s[i..]) ==> exists j :: 0 <= j < i && LineTerminator(s[j])
    decreases |s|
  {
    if !AtCloseTag(s) && |s| > 0 && !LineTerminator(s[0]) {
      CloseIndexFirst(s[1..]);
      assert forall i :: 1 <= i <= |s| ==> s[i..] == s[1..][i - 1..];
      assert forall j :: 0 <= j < |s| - 1 ==> s[1..][j] == s[j + 1];
    }
  }

  /** The end of a link that starts at the front of `s` with the opener `o`,
      if one does. */
  function LinkEnd(s: string, o: string): (r: Option<nat>)
    ensures r.Some? ==> |o| < r.value <= |s| && StartsWith(s, o)
  {
    if !StartsWith(s, o) then None
    else
      match GtIndex(s[|o|..])
      case None => None
      case Some(g) =>
        match CloseIndex(s[|o| + g + 1..])
        case None => None
        case Some(c) => Some(|o| + g + 1 + c + 4)
  }

  /** `m.replace(/<a[^>]*>|<\/a>/g, '')`: every tag that starts with `<a` and
      runs to a later `>`, and every `</a>`, is dropped. */
  function StripTags(m: string): (r: string)
    ensures |r| <= |m|
    decreases |m|
  {
    if |m| == 0 then []
    else if AtOpenTag(m) && GtIndex(m[2..]).Some? then StripTags(m[2 + GtIndex(m[2..]).value + 1..])
    else if AtCloseTag(m) then StripTags(m[4..])
    else [m[0]] + StripTags(m[1..])
  }

  /** The body with every link opened by `o` unwrapped, scanning from the
      left and resuming after each link. */
  function RemoveLinks(s: string, o: string): string
    decreases |s|
  {
    if |s| == 0 then []
    else
      match LinkEnd(s, o)
      case Some(e) => StripTags(s[..e]) + RemoveLinks(s[e..], o)
      case None => [s[0]] + RemoveLinks(s[1..], o)
  }

  /** The body of the post `slug` with its self-links unwrapped. */
  function RemoveSelfLinks(s: string, slug: string): string {
    RemoveLinks(s, SelfOpener(slug))
  }

  /** An opener of an anchor: it starts with `<a` and has no `>`. */
  predicate Opener(o: string) {
    AtOpenTag(o) && '>' !in o
  }

  lemma SelfOpenerShape(slug: string)
    requires HrefFix.Slug(slug)
    ensures Opener(SelfOpener(slug))
  {
    var o := SelfOpener(slug);
    forall i | 0 <= i < |o| ensures o[i] != '>' {
      if 9 <= i < 9 + |slug| { assert o[i] == slug[i - 9]; }
    }
  }

  /** Text without a `<` survives the tag removal unchanged. */
  lemma {:induction false} StripPlain(t: string, rest: string)
    requires '<' !in t
    ensures StripTags(t + rest) == t + StripTags(rest)
    decreases |t|
  {
    if |t| == 0 {
      assert t + rest == rest;
    } else {
      var m := t + rest;
      assert m[0] == t[0];
      assert m[1..] == t[1..] + rest;
      StripPlain(t[1..], rest);
    }
  }

  /** Text without a `<` is passed over by the link removal. */
  lemma {:induction false} PlainTextPasses(t: string, rest: string, o: string)
    requires '<' !in t && AtOpenTag(o)
    ensures RemoveLinks(t + rest, o) == t + RemoveLinks(rest, o)
    decreases |t|
  {
    if |t| == 0 {
      assert t + rest == rest;
    } else {
      var s := t + rest;
      assert s[0] == t[0];
      PlainNotLink(s, o);
      RemoveSkips(s, o);
      assert s[1..] == t[1..] + rest;
      PlainTextPasses(t[1..], rest, o);
      assert [s[0]] + t[1..] == t;
    }
  }

  /** A body that does not start with `<` does not start with a link. */
  lemma PlainNotLink(s: string, o: string)
    requires |s| > 0 && s[0] != '<' && AtOpenTag(o)
    ensures LinkEnd(s, o) == None
  {
    if |o| <= |s| {
      assert s[..|o|][0] == s[0];
    }
  }

  /** A body in which the opener does not occur comes back unchanged. */
  lemma {:induction false} NoLinkUnchanged(s: string, o: string)
    requires Absent(s, o)
    ensures RemoveLinks(s, o) == s
    decreases |s|
  {
    if |s| > 0 {
      assert !OccursAt(s, o, 0);
      AbsentDrop(s, 1, o);
      NoLinkUnchanged(s[1..], o);
    }
  }

  lemma GtAfter(a: string, b: string)
    requires '>' !in a
    ensures GtIndex(a + ">" + b) == Some(|a|)
  {
    var s := a + ">" + b;
    assert s[|a|] == '>';
    assert s[..|a|] == a;
  }

  /** Text the lazy `.*?` of a link can cover before its `</a>`: no line
      break and no `</a>` of its own. */
  predicate LinkText(t: string) {
    forall i :: 0 <= i < |t| ==> !LineTerminator(t[i]) && !AtCloseTag(t[i..])
  }

  /** Every `<a` of `t` is closed by a later `>` within `t`. */
  predicate TagsClosed(t: string) {
    forall i :: 0 <= i < |t| && AtOpenTag(t[i..]) ==> '>' in t[i..]
  }

  lemma LinkTextTail(t: string)
    requires |t| > 0 && LinkText(t)
    ensures LinkText(t[1..]) && !LineTerminator(t[0]) && !AtCloseTag(t)
  {
    assert t[0..] == t;
    forall i | 0 <= i < |t[1..]| ensures t[1..][i..] == t[i + 1..] && t[1..][i] == t[i + 1] {
    }
  }

  lemma TagsClosedDrop(t: string, n: nat)
    requires n <= |t| && TagsClosed(t)
    ensures TagsClosed(t[n..])
  {
    forall i | 0 <= i < |t[n..]| ensures t[n..][i..] == t[n + i..] {
    }
  }

  /** A text that does not start with `</a>` (or `<a`) does not do so either
      once something starting with `<` follows it: `<` ends neither tag. */
  lemma NoTagAcross(t: string, x: string)
    requires |t| > 0 && |x| > 0 && x[0] == '<'
    ensures !AtCloseTag(t) ==> !AtCloseTag(t + x)
    ensures !AtOpenTag(t) ==> !AtOpenTag(t + x)
  {
    var m := t + x;
    assert m[|t|] == '<';
    assert m[0] == t[0];
    if |t| >= 2 { assert m[1] == t[1]; }
    if |t| >= 3 { assert m[2] == t[2]; }
    if |t| >= 4 { assert m[3] == t[3]; }
  }

  lemma {:induction false} CloseAfter(t: string, b: string)
    requires LinkText(t)
    ensures CloseIndex(t + CloseTag + b) == Some(|t|)
    decreases |t|
  {
    var s := t + CloseTag + b;
    if |t| == 0 {
      assert s == CloseTag + b;
      assert AtCloseTag(s);
    } else {
      LinkTextTail(t);
      assert s == t + (CloseTag + b);
      NoTagAcross(t, CloseTag + b);
      assert s[0] == t[0];
      assert s[1..] == t[1..] + CloseTag + b;
      CloseAfter(t[1..], b);
    }
  }

  /** A link opened by `o` is matched up to and including its first `</a>`,
      when its text has no `</a>` and no line break. */
  lemma LinkMatch(o: string, attrs: string, text: string, rest: string)
    requires '>' !in attrs && LinkText(text)
    ensures LinkEnd(o + (attrs + ">" + (text + CloseTag + rest)), o) == Some(|o| + |attrs| + 1 + |text| + 4)
  {
    var t := text + CloseTag + rest;
    var a := attrs + ">" + t;
    var s := o + a;
    assert s[..|o|] == o;
    assert s[|o|..] == a;
    GtAfter(attrs, t);
    assert s[|o| + |attrs| + 1..] == t;
    CloseAfter(text, rest);
  }

  lemma StripOpenTag(inner: string, after: string)
    requires '>' !in inner && AtOpenTag(inner)
    ensures StripTags(inner + ">" + after) == StripTags(after)
  {
    var m := inner + ">" + after;
    assert m[2..] == inner[2..] + ">" + after;
    GtAfter(inner[2..], after);
    assert m[2 + |inner[2..]| + 1..] == after;
  }

  lemma StripClose(rest: string)
    ensures StripTags(CloseTag + rest) == StripTags(rest)
  {
    var m := CloseTag + rest;
    assert !AtOpenTag(m);
    assert AtCloseTag(m);
    assert m[4..] == rest;
  }

  /** The first `>` of a text is still the first once more text follows. */
  lemma {:induction false} GtPrefix(x: string, y: string)
    ensures GtIndex(x).Some? ==> GtIndex(x + y) == GtIndex(x)
    decreases |x|
  {
    if |x| > 0 && x[0] != '>' {
      assert (x + y)[0] == x[0];
      assert (x + y)[1..] == x[1..] + y;
      GtPrefix(x[1..], y);
    } else if |x| > 0 {
      assert (x + y)[0] == x[0];
    }
  }

  lemma OpenTagCloses(t: string)
    ensures TagsClosed(t) && AtOpenTag(t) ==> GtIndex(t[2..]).Some?
  {
    if TagsClosed(t) && AtOpenTag(t) {
      assert t[0..] == t;
      var k :| 0 <= k < |t| && t[k] == '>';
      assert t[2..][k - 2] == '>';
    }
  }

  /** When every `<a` of the link text is closed inside it, the `</a>` that
      ends the link only adds a tag to strip: the text is stripped as if on
      its own. */
  lemma {:induction false} StripBeforeClose(t: string)
    requires TagsClosed(t)
    ensures StripTags(t + CloseTag) == StripTags(t)
    decreases |t|
  {
    if |t| == 0 {
      assert t + CloseTag == CloseTag + [];
      StripClose([]);
    } else {
      OpenTagCloses(t);
      if AtOpenTag(t) {
        var n := StepOpen(t);
        TagsClosedDrop(t, n);
        StripBeforeClose(t[n..]);
      } else if AtCloseTag(t) {
        StepClose(t);
        TagsClosedDrop(t, 4);
        StripBeforeClose(t[4..]);
      } else {
        StepPlain(t, CloseTag);
        TagsClosedDrop(t, 1);
        StripBeforeClose(t[1..]);
      }
    }
  }

  /** An opening tag at the front is stripped alike with or without the
      `</a>` after the text. */
  lemma StepOpen(t: string) returns (n: nat)
    requires AtOpenTag(t) && GtIndex(t[2..]).Some?
    ensures 0 < n <= |t| && StripTags(t) == StripTags(t[n..])
    ensures StripTags(t + CloseTag) == StripTags(t[n..] + CloseTag)
  {
    var g := GtIndex(t[2..]).value;
    n := 2 + g + 1;
    var m := t + CloseTag;
    assert m[2..] == t[2..] + CloseTag;
    GtPrefix(t[2..], CloseTag);
    assert m[n..] == t[n..] + CloseTag;
  }

  lemma StepClose(t: string)
    requires AtCloseTag(t)
    ensures StripTags(t + CloseTag) == StripTags(t[4..] + CloseTag)
  {
    var m := t + CloseTag;
    assert m[..4] == t[..4];
    assert m[4..] == t[4..] + CloseTag;
  }

  lemma StepPlain(t: string, x: string)
    requires |t| > 0 && !AtOpenTag(t) && !AtCloseTag(t)
    requires |x| > 0 && x[0] == '<'
    ensures StripTags(t + x) == [t[0]] + StripTags(t[1..] + x)
  {
    var m := t + x;
    NoTagAcross(t, x);
    StripKeeps(m);
    assert m[0] == t[0];
    assert m[1..] == t[1..] + x;
  }

  /** A first character that starts no tag is kept. */
  lemma StripKeeps(m: string)
    requires |m| > 0 && !AtOpenTag(m) && !AtCloseTag(m)
    ensures StripTags(m) == [m[0]] + StripTags(m[1..])
  {
  }

  /** Stripping the tags of a link text without `<` leaves that text. */
  lemma StripPlainLink(text: string)
    requires '<' !in text
    ensures StripTags(text + CloseTag) == text
  {
    StripPlain(text, CloseTag);
    StripClose([]);
    assert CloseTag + [] == CloseTag;
    assert text + [] == text;
  }

  /** Stripping the tags of a matched link drops its opening tag. */
  lemma StripOpened(inner: string, text: string)
    requires '>' !in inner && AtOpenTag(inner)
    ensures StripTags(inner + ">" + text + CloseTag) == StripTags(text + CloseTag)
  {
    assert inner + ">" + text + CloseTag == inner + ">" + (text + CloseTag);
    StripOpenTag(inner, text + CloseTag);
  }

  /** The scan over a body that starts with a link of `o` ending at `e`. */
  lemma RemoveAtLink(s: string, o: string, e: nat)
    requires LinkEnd(s, o) == Some(e)
    ensures RemoveLinks(s, o) == StripTags(s[..e]) + RemoveLinks(s[e..], o)
  {
  }

  /** The scan over a body that does not start with a link of `o`. */
  lemma RemoveSkips(s: string, o: string)
    requires |s| > 0 && LinkEnd(s, o) == None
    ensures RemoveLinks(s, o) == [s[0]] + RemoveLinks(s[1..], o)
  {
  }

  lemma OpenerAttrs(o: string, attrs: string)
    requires Opener(o) && '>' !in attrs
    ensures '>' !in o + attrs && AtOpenTag(o + attrs)
  {
    var inner := o + attrs;
    forall i | 0 <= i < |inner| ensures inner[i] != '>' {
      if i < |o| { assert inner[i] == o[i]; } else { assert inner[i] == attrs[i - |o|]; }
    }
    assert inner[0] == o[0] && inner[1] == o[1];
  }

  /** A link opened by `o` whose text has no `</a>` and no line break is
      replaced by its text and closing tag with their tags stripped; the
      attributes after the opener do not matter. */
  lemma LinkUnwrapped(o: string, attrs: string, text: string, rest: string)
    requires Opener(o)
    requires '>' !in attrs && LinkText(text)
    ensures RemoveLinks(o + attrs + ">" + text + CloseTag + rest, o) == StripTags(text + CloseTag) + RemoveLinks(rest, o)
  {
    var link := o + attrs + ">" + text + CloseTag;
    var s := link + rest;
    assert s == o + (attrs + ">" + (text + CloseTag + rest));
    LinkMatch(o, attrs, text, rest);
    RemoveAtLink(s, o, |link|);
    assert s[..|link|] == link;
    assert s[|link|..] == rest;
    OpenerAttrs(o, attrs);
    StripOpened(o + attrs, text);
  }

  /** A self-link whose text has no `</a>` and no line break is replaced by
      its text with the anchor tags stripped, leaving the rest of the body to
      the scan that goes on after it; the text is kept exactly when each of
      its `<a` tags is closed, and verbatim when it has no tag at all. */
  lemma SelfLinkUnwrapped(slug: string, attrs: string, text: string, rest: string)
    requires HrefFix.Slug(slug)
    requires '>' !in attrs && LinkText(text)
    ensures RemoveSelfLinks(SelfOpener(slug) + attrs + ">" + text + CloseTag + rest, slug)
         == StripTags(text + CloseTag) + RemoveSelfLinks(rest, slug)
    ensures TagsClosed(text) ==> (RemoveSelfLinks(SelfOpener(slug) + attrs + ">" + text + CloseTag + rest, slug)
                                  == StripTags(text) + RemoveSelfLinks(rest, slug))
    ensures '<' !in text ==> (RemoveSelfLinks(SelfOpener(slug) + attrs + ">" + text + CloseTag + rest, slug)
                              == text + RemoveSelfLinks(rest, slug))
  {
    SelfOpenerShape(slug);
    LinkUnwrapped(SelfOpener(slug), attrs, text, rest);
    if TagsClosed(text) {
      StripBeforeClose(text);
    }
    if '<' !in text {
      StripPlainLink(text);
    }
  }

  /** A body without a self-link of the post comes back unchanged. */
  lemma NoSelfLinkUnchanged(s: string, slug: string)
    requires Absent(s, SelfOpener(slug))
    ensures RemoveSelfLinks(s, slug) == s
  {
    NoLinkUnchanged(s, SelfOpener(slug));
  }

  /** Text without a `<` passes through the self-link removal. */
  lemma PlainTextKept(t: string, rest: string, slug: string)
    requires '<' !in t
    ensures RemoveSelfLinks(t + rest, slug) == t + RemoveSelfLinks(rest, slug)
  {
    PlainTextPasses(t, rest, SelfOpener(slug));
  }

  /** An anchor to another post is not a self-link of this one. */
  lemma NoLinkToOther(slug: string, y: string, x: string)
    requires HrefFix.Slug(slug) && HrefFix.Slug(y) && y != slug
    ensures LinkEnd(SelfOpener(y) + x, SelfOpener(slug)) == None
  {
    if StartsWith(SelfOpener(y) + x, SelfOpener(slug)) {
      OpenersDiffer(slug, y, x);
    }
  }

  lemma SkipThenPlain(s: string, t: string, rest: string, o: string)
    requires |s| > 0 && AtOpenTag(o) && '<' !in t
    requires s[1..] == t + rest
    requires RemoveLinks(s, o) == [s[0]] + RemoveLinks(s[1..], o)
    ensures RemoveLinks(s, o) == [s[0]] + t + RemoveLinks(rest, o)
  {
    PlainTextPasses(t, rest, o);
  }

  lemma AppendHead(tag: string, rest: string)
    requires |tag| > 0
    ensures (tag + rest)[1..] == tag[1..] + rest
    ensures [(tag + rest)[0]] + tag[1..] == tag
  {
  }

  /** A tag that does not open a link of `o`, with no `<` after its first
      character, is passed over by the link removal. */
  lemma TagPasses(tag: string, rest: string, o: string)
    requires |tag| > 0 && AtOpenTag(o) && '<' !in tag[1..]
    requires LinkEnd(tag + rest, o) == None
    ensures RemoveLinks(tag + rest, o) == tag + RemoveLinks(rest, o)
  {
    RemoveSkips(tag + rest, o);
    AppendHead(tag, rest);
    SkipThenPlain(tag + rest, tag[1..], rest, o);
  }

  /** An anchor to another post of the document is kept as it is. */
  lemma OtherLinkKept(slug: string, y: string, attrs: string, rest: string)
    requires HrefFix.Slug(slug) && HrefFix.Slug(y) && y != slug
    requires '<' !in attrs
    ensures RemoveSelfLinks(SelfOpener(y) + attrs + ">" + rest, slug)
         == SelfOpener(y) + attrs + ">" + RemoveSelfLinks(rest, slug)
  {
    var tag := SelfOpener(y) + attrs + ">";
    assert tag + rest == SelfOpener(y) + (attrs + ">" + rest);
    NoLinkToOther(slug, y, attrs + ">" + rest);
    NoLtAfterFirst(y, attrs);
    SelfOpenerShape(slug);
    TagPasses(tag, rest, SelfOpener(slug));
  }

  lemma NoLtAfterFirst(y: string, attrs: string)
    requires HrefFix.Slug(y) && '<' !in attrs
    ensures '<' !in (SelfOpener(y) + attrs + ">")[1..]
  {
    var t := SelfOpener(y) + attrs + ">";
    var o := SelfOpener(y);
    forall i | 1 <= i < |t| ensures t[i] != '<' {
      if 9 <= i < 9 + |y| { assert t[i] == y[i - 9]; }
      else if |o| <= i < |o| + |attrs| { assert t[i] == attrs[i - |o|]; }
    }
  }

  /** The opener of one post's self-links is not a prefix of another post's
      anchor: slugs contain no dot. */
  lemma OpenersDiffer(slug: string, y: string, x: string)
    requires HrefFix.Slug(slug) && HrefFix.Slug(y)
    requires StartsWith(SelfOpener(y) + x, SelfOpener(slug))
    ensures slug == y
  {
    var a := SelfOpener(slug);
    var b := SelfOpener(y) + x;
    DotAt(slug);
    DotAt(y);
    assert b[9 + |y|] == '.';
    assert forall i :: 9 <= i < 9 + |y| ==> b[i] != '.';
    assert forall i :: 9 <= i < 9 + |slug| ==> a[i] != '.';
    assert a[9 + |slug|] == '.';
    assert slug == a[9..9 + |slug|];
    assert y == b[9..9 + |y|];
  }

  lemma DotAt(y: string)
    requires HrefFix.Slug(y)
    ensures SelfOpener(y)[9 + |y|] == '.'
    ensures forall i :: 9 <= i < 9 + |y| ==> SelfOpener(y)[i] == y[i - 9] && SelfOpener(y)[i] != '.'
  {
  }
}

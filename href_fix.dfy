/** The second clean-up of `buildBlogPosts`: for every slug of the content
    document other than the post's own, each `href="slug"` in the post body
    becomes `href="slug.html"`. Slugs are lower-case letters, digits and
    dashes, so the pattern is a fixed string and matches literally; its
    negative lookahead for `.html` always holds, because the character after
    the slug in a match is the closing quote. */
module HrefFix {
  import opened Common
  import opened Replace

  predicate IsSlugChar(c: char) {
    ('a' <= c <= 'z') || ('0' <= c <= '9') || c == '-'
  }

  predicate Slug(y: string) {
    forall i :: 0 <= i < |y| ==> IsSlugChar(y[i])
  }

  predicate AllSlugs(slugs: seq<string>) {
    forall i :: 0 <= i < |slugs| ==> Slug(slugs[i])
  }

  const Html: string := ".html"

  /** A link suffix: none, or the page extension. */
  predicate Ext(e: string) {
    e == "" || e == Html
  }

  /** The attribute `href="b"`. */
  function Href(b: string): string {
    "href=\"" + b + "\""
  }

  /** A link target without quotes or equals signs. */
  predicate Plain(b: string) {
    '"' !in b && '=' !in b
  }

  lemma SlugLinkPlain(y: string, e: string)
    requires Slug(y) && Ext(e)
    ensures Plain(y + e)
  {
    assert forall i :: 0 <= i < |y + e| ==> (y + e)[i] != '"' && (y + e)[i] != '=' by {
      forall i | 0 <= i < |y + e| ensures (y + e)[i] != '"' && (y + e)[i] != '=' {
        if i < |y| { assert (y + e)[i] == y[i]; } else { assert (y + e)[i] == e[i - |y|]; }
      }
    }
  }

  /** A slug has no dot: a target carries the extension exactly when it
      contains a dot. */
  lemma ExtOf(y: string, e: string)
    requires Slug(y) && Ext(e)
    ensures '.' in y + e <==> e == Html
  {
    if e == Html {
      assert (y + e)[|y|] == '.';
    } else {
      assert y + e == y;
      assert forall i :: 0 <= i < |y| ==> y[i] != '.';
    }
  }

  /** A target names one slug and one suffix. */
  lemma TargetUnique(y1: string, e1: string, y2: string, e2: string)
    requires Slug(y1) && Ext(e1) && Slug(y2) && Ext(e2)
    requires y1 + e1 == y2 + e2
    ensures y1 == y2 && e1 == e2
  {
    ExtOf(y1, e1);
    ExtOf(y2, e2);
    assert y1 == (y1 + e1)[..|y1|];
    assert y2 == (y2 + e2)[..|y2|];
  }

  /** Where the quotes and the equals sign of a link are. */
  lemma HrefShape(b: string)
    requires Plain(b)
    ensures |Href(b)| == |b| + 7
    ensures forall i :: 0 <= i < |Href(b)| ==> (Href(b)[i] == '=' <==> i == 4)
    ensures forall i :: 0 <= i < |Href(b)| ==> (Href(b)[i] == '"' <==> i == 5 || i == |b| + 6)
    ensures Href(b)[6..|b| + 6] == b
  {
    var h := Href(b);
    forall i | 6 <= i < |b| + 6 ensures h[i] == b[i - 6] {}
  }

  /** First characters of two laid-over strings that agree as far as both
      reach. */
  lemma CompatibleAt(a: string, c: string, i: nat)
    requires Compatible(a, c) && i < |a| && i < |c|
    ensures a[i] == c[i]
  {
    if StartsWith(a, c) { assert a[..|c|][i] == a[i]; } else { assert c[..|a|][i] == c[i]; }
  }

  /** Two links overlap only by being equal: no link can start inside
      another one. */
  lemma HrefsSeparate(b1: string, b2: string)
    requires Plain(b1) && Plain(b2)
    ensures NoOverlapFrom(Href(b1), Href(b2), 1)
    ensures Compatible(Href(b1), Href(b2)) ==> b1 == b2
  {
    var l1 := Href(b1);
    var l2 := Href(b2);
    HrefShape(b1);
    HrefShape(b2);
    forall k | 1 <= k < |l1| ensures !Compatible(l1[k..], l2) {
      if Compatible(l1[k..], l2) {
        if |l1| - k >= 5 {
          CompatibleAt(l1[k..], l2, 4);
        } else {
          CompatibleAt(l1[k..], l2, |l1| - 1 - k);
        }
      }
    }
    if Compatible(l1, l2) {
      if |l1| < |l2| {
        CompatibleAt(l1, l2, |l1| - 1);
      } else if |l2| < |l1| {
        CompatibleAt(l1, l2, |l2| - 1);
      }
      assert |l1| == |l2|;
      assert l1 == l2;
      assert b1 == l1[6..|b1| + 6];
    }
  }

  /** The rewrite for one slug `x` of the document: none for the post's own
      slug, otherwise every `href="x"` becomes `href="x.html"`. */
  function FixStep(s: string, x: string, own: string): string {
    if x == own then s else ReplaceAll(s, Href(x), Href(x + Html))
  }

  /** The body after the rewrites for `slugs`, one after the other in order. */
  function FixHrefs(s: string, own: string, slugs: seq<string>): string {
    if |slugs| == 0 then s
    else FixStep(FixHrefs(s, own, slugs[..|slugs| - 1]), slugs[|slugs| - 1], own)
  }

  /** The suffix a link to slug `y` with suffix `e` ends up with. */
  function FixedExt(y: string, e: string, own: string, slugs: seq<string>): string {
    if e == "" && y in slugs && y != own then Html else e
  }

  /** What one rewrite does to a link of the body: it turns into
      `href="x.html"` when it is `href="x"`, stays as it is otherwise, and
      the text on both sides of it is rewritten on its own. */
  lemma FixStepAround(u: string, w: string, y: string, e: string, x: string, own: string)
    requires Slug(y) && Ext(e) && Slug(x)
    ensures FixStep(u + Href(y + e) + w, x, own) ==
      FixStep(u, x, own) + Href(if x != own && y == x && e == "" then x + Html else y + e) + FixStep(w, x, own)
  {
    if x != own {
      var p := Href(x);
      var r := Href(x + Html);
      var q := Href(y + e);
      SlugLinkPlain(x, "");
      assert x + "" == x;
      SlugLinkPlain(y, e);
      HrefsSeparate(x, y + e);
      HrefsSeparate(y + e, x);
      CrossingFree(p, q, w);
      assert u + q + w == u + (q + w);
      ReplaceAppend(u, q + w, p, r);
      if y == x && e == "" {
        assert q == p;
        ReplaceHead(w, p, r);
      } else {
        assert y + e != x by {
          if y + e == x { TargetUnique(y, e, x, ""); }
        }
        assert q[0..] == q;
        ReplaceKeep(q, w, p, r, 0);
      }
    }
  }

  /** What the whole rewrite does to one link of the body: a link to
      another slug of the document gets `.html`, a link to the post itself,
      one that already ends in `.html` and one to an unknown page are left
      alone, and the text around the link is rewritten on its own. */
  lemma {:induction false} FixHrefsAround(u: string, w: string, y: string, e: string, own: string, slugs: seq<string>)
    requires Slug(y) && Ext(e) && AllSlugs(slugs)
    ensures FixHrefs(u + Href(y + e) + w, own, slugs) ==
      FixHrefs(u, own, slugs) + Href(y + FixedExt(y, e, own, slugs)) + FixHrefs(w, own, slugs)
    ensures y == own || y !in slugs || e == Html ==> FixedExt(y, e, own, slugs) == e
    ensures y in slugs && y != own ==> FixedExt(y, e, own, slugs) == Html
  {
    if |slugs| > 0 {
      var init := slugs[..|slugs| - 1];
      var x := slugs[|slugs| - 1];
      assert AllSlugs(init);
      assert slugs == init + [x];
      FixHrefsAround(u, w, y, e, own, init);
      var e1 := FixedExt(y, e, own, init);
      FixStepAround(FixHrefs(u, own, init), FixHrefs(w, own, init), y, e1, x, own);
    }
  }

  /** After the rewrite no link `href="y"` is left for any slug `y` of the
      document other than the post's own. */
  lemma {:induction false} FixHrefsComplete(s: string, own: string, slugs: seq<string>, y: string)
    requires AllSlugs(slugs)
    requires y in slugs && y != own
    ensures Absent(FixHrefs(s, own, slugs), Href(y))
  {
    var init := slugs[..|slugs| - 1];
    var x := slugs[|slugs| - 1];
    assert AllSlugs(init);
    assert slugs == init + [x];
    var prev := FixHrefs(s, own, init);
    if y in init {
      FixHrefsComplete(s, own, init, y);
      if x != own {
        StepAddsNoLink(prev, x, y);
      }
    } else {
      assert y == x;
      StepAddsNoLink(prev, x, y);
    }
  }

  lemma StepAddsNoLink(s: string, x: string, y: string)
    requires Slug(x) && Slug(y)
    requires y == x || Absent(s, Href(y))
    ensures Absent(ReplaceAll(s, Href(x), Href(x + Html)), Href(y))
  {
    SlugLinkPlain(x, Html);
    SlugLinkPlain(y, "");
    assert y + "" == y;
    HrefsSeparate(y, x + Html);
    HrefsSeparate(x + Html, y);
    assert y != x + Html by {
      if y == x + Html { TargetUnique(y, "", x, Html); }
    }
    NoNewOccurrence(s, Href(x), Href(x + Html), Href(y));
  }

  /** A body without any link that the rewrite would change comes back
      unchanged. */
  lemma {:induction false} FixHrefsUnchanged(s: string, own: string, slugs: seq<string>)
    requires forall y :: y in slugs && y != own ==> Absent(s, Href(y))
    ensures FixHrefs(s, own, slugs) == s
  {
    if |slugs| > 0 {
      var init := slugs[..|slugs| - 1];
      var x := slugs[|slugs| - 1];
      FixHrefsUnchanged(s, own, init);
      if x != own {
        ReplaceAbsent(s, Href(x), Href(x + Html));
      }
    }
  }

  /** The rewrite is idempotent: on its own output it changes nothing. */
  lemma FixHrefsIdempotent(s: string, own: string, slugs: seq<string>)
    requires AllSlugs(slugs)
    ensures FixHrefs(FixHrefs(s, own, slugs), own, slugs) == FixHrefs(s, own, slugs)
  {
    forall y | y in slugs && y != own ensures Absent(FixHrefs(s, own, slugs), Href(y)) {
      FixHrefsComplete(s, own, slugs, y);
    }
    FixHrefsUnchanged(FixHrefs(s, own, slugs), own, slugs);
  }
}

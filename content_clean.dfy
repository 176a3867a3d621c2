/** The meta-description cleanup of the content generator: JavaScript's
    `String.prototype.trim` and the global removal of `"` characters. */
module ContentClean {

  /** The code points `trim` removes: the ECMAScript WhiteSpace and
      LineTerminator characters. */
  predicate IsSpace(c: char) {
    || c == '\t' || c == '\n' || c == '\U{000B}' || c == '\U{000C}' || c == '\r' || c == ' '
    || c == '\U{00A0}' || c == '\U{1680}' || ('\U{2000}' <= c <= '\U{200A}')
    || c == '\U{2028}' || c == '\U{2029}' || c == '\U{202F}' || c == '\U{205F}'
    || c == '\U{3000}' || c == '\U{FEFF}'
  }

  predicate AllSpace(s: string) {
    forall i :: 0 <= i < |s| ==> IsSpace(s[i])
  }

  /** Neither end of `s` is white space. */
  predicate Trimmed(s: string) {
    |s| > 0 ==> !IsSpace(s[0]) && !IsSpace(s[|s| - 1])
  }

  /** The number of white-space characters `s` starts with. */
  function LeadingSpace(s: string): (n: nat)
    ensures n <= |s|
    ensures forall k :: 0 <= k < n ==> IsSpace(s[k])
    ensures n < |s| ==> !IsSpace(s[n])
  {
    if |s| == 0 || !IsSpace(s[0]) then 0
    else
      var n := LeadingSpace(s[1..]);
      assert forall k :: 1 <= k <= n ==> s[k] == s[1..][k - 1];
      n + 1
  }

  /** The length of `s` once its trailing white space is cut off. */
  function TrailingStart(s: string): (n: nat)
    ensures n <= |s|
    ensures forall k :: n <= k < |s| ==> IsSpace(s[k])
    ensures n > 0 ==> !IsSpace(s[n - 1])
  {
    if |s| == 0 || !IsSpace(s[|s| - 1]) then |s|
    else
      var n := TrailingStart(s[..|s| - 1]);
      assert forall k :: n <= k < |s| - 1 ==> s[k] == s[..|s| - 1][k];
      n
  }

  /** `s` without its leading white space. */
  function TrimStart(s: string): string {
    s[LeadingSpace(s)..]
  }

  /** `s` without its trailing white space. */
  function TrimEnd(s: string): string {
    s[..TrailingStart(s)]
  }

  /** `s.trim()`: white space dropped from both ends. */
  function Trim(s: string): (r: string)
    ensures Trimmed(r)
  {
    var t := TrimStart(s);
    assert |t| > 0 ==> t[0] == s[LeadingSpace(s)];
    TrimEnd(t)
  }

  /** What `trim()` keeps is the slice of `s` between white-space ends; it
      is empty only when `s` is all white space. */
  lemma TrimSlice(s: string)
    ensures var i := LeadingSpace(s);
      && i + |Trim(s)| <= |s|
      && Trim(s) == s[i..i + |Trim(s)|]
      && (forall k :: 0 <= k < i ==> IsSpace(s[k]))
      && (forall k :: i + |Trim(s)| <= k < |s| ==> IsSpace(s[k]))
  {
    var i := LeadingSpace(s);
    var n := TrailingStart(s[i..]);
    SliceOfSuffix(s, i, n);
    assert forall k :: i + n <= k < |s| ==> s[k] == s[i..][k - i];
  }

  lemma SliceOfSuffix(s: string, i: nat, n: nat)
    requires i + n <= |s|
    ensures s[i..][..n] == s[i..i + n]
  {
  }

  /** `trim()` leaves nothing exactly when `s` is all white space. */
  lemma TrimEmpty(s: string)
    ensures Trim(s) == [] <==> AllSpace(s)
  {
    TrimSlice(s);
  }

  /** `s.replace(/"/g, '')`: every `"` dropped, everything else kept in order. */
  function RemoveQuotes(s: string): (r: string)
    ensures '"' !in r
    ensures '"' !in s ==> r == s
  {
    if |s| == 0 then []
    else
      var rest := RemoveQuotes(s[1..]);
      if s[0] == '"' then rest else [s[0]] + rest
  }

  /** Quote removal drops every `"` and nothing else: each other character
      keeps its number of occurrences. */
  lemma {:induction false} RemoveQuotesCount(s: string)
    ensures multiset(RemoveQuotes(s)) == multiset(s)['"' := 0]
  {
    if |s| > 0 {
      RemoveQuotesCount(s[1..]);
      assert s == [s[0]] + s[1..];
    }
  }

  /** Quote removal works piece by piece: it is the same on a concatenation
      as on its parts, so the kept characters keep their order. */
  lemma {:induction false} RemoveQuotesAppend(a: string, b: string)
    ensures RemoveQuotes(a + b) == RemoveQuotes(a) + RemoveQuotes(b)
  {
    if |a| > 0 {
      assert (a + b)[1..] == a[1..] + b;
      RemoveQuotesAppend(a[1..], b);
    } else {
      assert a + b == b;
    }
  }

  /** The cleanup as the source writes it: `trim()` first, quote removal
      afterwards. */
  function CleanMetaAsWritten(s: string): (r: string)
    ensures '"' !in r
    ensures '"' !in s ==> Trimmed(r)
  {
    RemoveQuotes(Trim(s))
  }

  /** A quoted reply whose text starts with a space keeps that space: the
      quotes protect it from `trim()` and are removed only afterwards (the
      reply `" a "` with its quotes is one such input). */
  lemma {:induction false} AsWrittenKeepsPadding(t: string)
    requires '"' !in t
    ensures CleanMetaAsWritten("\" " + t + "\"") == " " + t
    ensures !Trimmed(CleanMetaAsWritten("\" " + t + "\""))
  {
    TrimQuoted("\" " + t + "\"");
    RemoveQuotesPadded(t);
    assert (" " + t)[0] == ' ';
  }

  /** `trim()` keeps a text that is quoted at both ends. */
  lemma TrimQuoted(s: string)
    requires |s| >= 2 && s[0] == '"' && s[|s| - 1] == '"'
    ensures Trim(s) == s
  {
    assert TrimStart(s) == s;
  }

  lemma RemoveQuotesPadded(t: string)
    requires '"' !in t
    ensures RemoveQuotes(['"', ' '] + t + ['"']) == [' '] + t
  {
    var u := t + ['"'];
    RemoveQuotesAppend(t, ['"']);
    assert RemoveQuotes(['"']) == [] by { assert ['"'][1..] == []; }
    assert RemoveQuotes(u) == t;
    var v := [' '] + u;
    assert v[1..] == u;
    assert RemoveQuotes(v) == [' '] + t;
    var w := ['"'] + v;
    assert w[1..] == v;
    assert RemoveQuotes(w) == [' '] + t;
    assert w == ['"', ' '] + t + ['"'];
  }

  /** The cleanup with the quotes removed before trimming, so the result
      never starts or ends with white space. */
  function CleanMeta(s: string): (r: string)
    ensures '"' !in r
    ensures Trimmed(r)
    ensures '"' !in s ==> r == CleanMetaAsWritten(s)
  {
    Trim(RemoveQuotes(s))
  }

  /** When the reply has no quote the two orders agree, and on a reply that
      is already clean both change nothing. */
  lemma CleanMetaAgrees(s: string)
    requires '"' !in s
    ensures CleanMeta(s) == CleanMetaAsWritten(s) == Trim(s)
    ensures Trimmed(s) ==> CleanMeta(s) == s
  {
    if Trimmed(s) && |s| > 0 {
      assert LeadingSpace(s) == 0;
      assert TrailingStart(s) == |s|;
    }
  }
}

/** `String.prototype.replace` with a global pattern that matches one fixed
    string: the text is scanned from the left, each occurrence found is
    replaced and the scan resumes after it, so occurrences never overlap. */
module Replace {
  import opened Common

  function ReplaceAll(s: string, p: string, r: string): string
    requires |p| > 0
    decreases |s|
  {
    if |s| == 0 then []
    else if StartsWith(s, p) then r + ReplaceAll(s[|p|..], p, r)
    else [s[0]] + ReplaceAll(s[1..], p, r)
  }

  /** One of `a` and `b` is a prefix of the other: laid over each other from
      the same position they agree as far as both reach. */
  predicate Compatible(a: string, b: string) {
    StartsWith(a, b) || StartsWith(b, a)
  }

  /** No occurrence of `b` can start inside `a` at an offset of `lo` or more
      and agree with `a` as far as `a` reaches. */
  predicate NoOverlapFrom(a: string, b: string, lo: nat) {
    forall k :: lo <= k < |a| ==> !Compatible(a[k..], b)
  }

  /** Neither string can overlap the other at any offset, the offset 0
      (equality and prefixes) included. */
  predicate Separated(a: string, b: string) {
    NoOverlapFrom(a, b, 0) && NoOverlapFrom(b, a, 0)
  }

  /** Text in which the pattern does not occur comes back unchanged. */
  lemma {:induction false} ReplaceAbsent(s: string, p: string, r: string)
    requires |p| > 0 && Absent(s, p)
    ensures ReplaceAll(s, p, r) == s
    decreases |s|
  {
    if |s| > 0 {
      assert !OccursAt(s, p, 0);
      assert !StartsWith(s, p);
      AbsentDrop(s, 1, p);
      ReplaceAbsent(s[1..], p, r);
    }
  }

  /** A replaced text that starts with a piece `q[k..]` (k >= 1) of a string
      that the replacement cannot overlap already started with that piece. */
  lemma {:induction false} ReplacedPrefix(y: string, p: string, r: string, q: string, k: nat)
    requires |p| > 0 && 1 <= k <= |q|
    requires NoOverlapFrom(q, r, 1)
    requires StartsWith(ReplaceAll(y, p, r), q[k..])
    ensures StartsWith(y, q[k..])
    decreases |y|
  {
    if k < |q| && |y| > 0 && !StartsWith(y, p) {
      var t := ReplaceAll(y, p, r);
      var rest := ReplaceAll(y[1..], p, r);
      assert t == [y[0]] + rest;
      assert q[k..][1..] == q[k + 1..];
      assert rest[..|q[k + 1..]|] == t[1..|q[k..]|];
      ReplacedPrefix(y[1..], p, r, q, k + 1);
      assert y[..|q[k..]|] == [y[0]] + y[1..][..|q[k + 1..]|];
    }
  }

  /** Replacing can create no occurrence of a string `q` that it cannot
      overlap: if `q` did not occur before, it does not occur after; and the
      pattern itself never survives a replacement that cannot overlap it. */
  lemma {:induction false} NoNewOccurrence(s: string, p: string, r: string, q: string)
    requires |p| > 0 && |q| > 0
    requires Separated(q, r)
    requires q == p || Absent(s, q)
    ensures Absent(ReplaceAll(s, p, r), q)
    decreases |s|
  {
    if |s| == 0 {
      assert ReplaceAll(s, p, r) == [];
    } else if StartsWith(s, p) {
      if q != p {
        AbsentDrop(s, |p|, q);
      }
      NoNewOccurrence(s[|p|..], p, r, q);
      AbsentAfterReplacement(r, ReplaceAll(s[|p|..], p, r), q);
    } else {
      if q != p {
        AbsentDrop(s, 1, q);
        assert !OccursAt(s, q, 0);
      }
      NoNewOccurrence(s[1..], p, r, q);
      AbsentAfterKept(s, p, r, q);
    }
  }

  /** `q` does not occur in `r + rest` when it does not occur in `rest` and
      cannot overlap `r`. */
  lemma AbsentAfterReplacement(r: string, rest: string, q: string)
    requires NoOverlapFrom(r, q, 0) && Absent(rest, q)
    ensures Absent(r + rest, q)
  {
    var t := r + rest;
    forall i: nat | i <= |t| ensures !OccursAt(t, q, i) {
      if i >= |r| {
        assert t[i..] == rest[i - |r|..];
        assert !OccursAt(rest, q, i - |r|);
      } else {
        assert !Compatible(r[i..], q);
      }
    }
  }

  /** The step that keeps the first character adds no occurrence of `q`. */
  lemma AbsentAfterKept(s: string, p: string, r: string, q: string)
    requires |p| > 0 && |q| > 0 && |s| > 0 && !StartsWith(s, p)
    requires NoOverlapFrom(q, r, 1)
    requires q == p || !StartsWith(s, q)
    requires Absent(ReplaceAll(s[1..], p, r), q)
    ensures Absent(ReplaceAll(s, p, r), q)
  {
    var rest := ReplaceAll(s[1..], p, r);
    assert ReplaceAll(s, p, r) == [s[0]] + rest;
    NotAtFront(s, p, r, q);
    AbsentCons(s[0], rest, q);
  }

  lemma AbsentCons(c: char, rest: string, q: string)
    requires Absent(rest, q) && !OccursAt([c] + rest, q, 0)
    ensures Absent([c] + rest, q)
  {
    var t := [c] + rest;
    forall i: nat | 1 <= i <= |t| ensures !OccursAt(t, q, i) {
      assert t[i..] == rest[i - 1..];
      assert !OccursAt(rest, q, i - 1);
    }
  }

  lemma NotAtFront(s: string, p: string, r: string, q: string)
    requires |p| > 0 && |q| > 0 && |s| > 0 && !StartsWith(s, p)
    requires NoOverlapFrom(q, r, 1)
    requires q == p || !StartsWith(s, q)
    ensures !OccursAt(ReplaceAll(s, p, r), q, 0)
  {
    var rest := ReplaceAll(s[1..], p, r);
    var t := ReplaceAll(s, p, r);
    assert t == [s[0]] + rest;
    if StartsWith(rest, q[1..]) {
      ReplacedPrefix(s[1..], p, r, q, 1);
    }
  }

  /** No occurrence of `p` can start before `x` and end inside it. */
  predicate NoCrossing(p: string, x: string) {
    forall m :: 1 <= m < |p| ==> !StartsWith(x, p[m..])
  }

  /** An occurrence at the front of `u + x` that is longer than `u` goes on
      at the front of `x`. */
  lemma PrefixSplit(u: string, x: string, p: string)
    ensures StartsWith(u + x, p) && |p| > |u| ==> StartsWith(x, p[|u|..])
  {
    if StartsWith(u + x, p) && |p| > |u| {
      assert x[..|p[|u|..]|] == (u + x)[|u|..|p|];
    }
  }

  /** Where no occurrence can straddle the boundary, replacing works on the
      two sides separately. */
  lemma {:induction false} ReplaceAppend(u: string, x: string, p: string, r: string)
    requires |p| > 0 && NoCrossing(p, x)
    ensures ReplaceAll(u + x, p, r) == ReplaceAll(u, p, r) + ReplaceAll(x, p, r)
    decreases |u|
  {
    if |u| == 0 {
      assert u + x == x;
    } else if StartsWith(u + x, p) {
      PrefixSplit(u, x, p);
      assert |p| <= |u|;
      assert u[..|p|] == (u + x)[..|p|];
      assert (u + x)[|p|..] == u[|p|..] + x;
      ReplaceAppend(u[|p|..], x, p, r);
    } else {
      assert (u + x)[1..] == u[1..] + x;
      ReplaceAppend(u[1..], x, p, r);
    }
  }

  /** A prefix of `q + w` is compatible with `q`. */
  lemma PrefixCompatible(a: string, q: string, w: string)
    ensures StartsWith(q + w, a) ==> Compatible(a, q)
  {
    if |a| <= |q| {
      assert (q + w)[..|a|] == q[..|a|];
    } else {
      assert (q + w)[..|q|] == q;
      if StartsWith(q + w, a) {
        assert a[..|q|] == (q + w)[..|q|];
      }
    }
  }

  /** A string that the pattern cannot overlap beyond its first position
      cannot be crossed into by an occurrence of the pattern. */
  lemma CrossingFree(p: string, q: string, w: string)
    requires NoOverlapFrom(p, q, 1)
    ensures NoCrossing(p, q + w)
  {
    forall m | 1 <= m < |p| ensures !StartsWith(q + w, p[m..]) {
      PrefixCompatible(p[m..], q, w);
    }
  }

  /** A string that the pattern cannot overlap at all is passed over
      unchanged. */
  lemma {:induction false} ReplaceKeep(q: string, w: string, p: string, r: string, k: nat)
    requires |p| > 0 && k <= |q| && NoOverlapFrom(q, p, 0)
    ensures ReplaceAll(q[k..] + w, p, r) == q[k..] + ReplaceAll(w, p, r)
    decreases |q| - k
  {
    if k == |q| {
      assert q[k..] + w == w;
    } else {
      var x := q[k..] + w;
      assert x[0] == q[k];
      assert x[1..] == q[k + 1..] + w;
      ReplaceKeep(q, w, p, r, k + 1);
      assert q[k..] == [q[k]] + q[k + 1..];
    }
  }

  /** An occurrence of the pattern at the front is replaced. */
  lemma ReplaceHead(w: string, p: string, r: string)
    requires |p| > 0
    ensures ReplaceAll(p + w, p, r) == r + ReplaceAll(w, p, r)
  {
    assert (p + w)[..|p|] == p;
    assert (p + w)[|p|..] == w;
  }
}

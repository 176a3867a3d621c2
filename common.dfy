/** Small shared vocabulary: an optional value, a success-or-failure value and
    literal string matching. */
module Common {

  datatype Option<+T> = None | Some(value: T)

  datatype Result<+R, +E> = Success(value: R) | Failure(error: E)

  /** `p` is a prefix of `s`. */
  predicate StartsWith(s: string, p: string) {
    |p| <= |s| && s[..|p|] == p
  }

  /** `p` occurs in `s` starting at index `i`. */
  predicate OccursAt(s: string, p: string, i: nat) {
    i + |p| <= |s| && s[i..i + |p|] == p
  }

  /** `p` occurs nowhere in `s`. */
  predicate Absent(s: string, p: string) {
    forall i: nat | i <= |s| :: !OccursAt(s, p, i)
  }

  /** Substring test, as Python's `t in s` and JavaScript's `s.includes(t)`. */
  function Contains(s: string, t: string): (b: bool)
    ensures b <==> exists i: nat :: OccursAt(s, t, i)
    decreases |s|
  {
    if StartsWith(s, t) then
      assert OccursAt(s, t, 0);
      true
    else if |s| == 0 then
      false
    else
      var b := Contains(s[1..], t);
      assert forall i: nat :: OccursAt(s[1..], t, i) <==> OccursAt(s, t, i + 1);
      assert forall i: nat :: OccursAt(s, t, i) && i > 0 ==> OccursAt(s[1..], t, i - 1);
      b
  }

  /** A text without `q` has no `q` in any of its suffixes. */
  lemma AbsentDrop(s: string, n: nat, q: string)
    requires n <= |s| && Absent(s, q)
    ensures Absent(s[n..], q)
  {
    forall i: nat | i <= |s[n..]| ensures !OccursAt(s[n..], q, i) {
      assert !OccursAt(s, q, n + i);
      if i + |q| <= |s[n..]| {
        assert s[n + i..n + i + |q|] == s[n..][i..i + |q|];
      }
    }
  }
}

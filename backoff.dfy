/** The bounded exponential backoff shared by the two retry helpers: which
    attempt ends the retrying, and the calls and waits made on the way. */
module Backoff {

  function Pow2(n: nat): (r: nat)
    ensures r >= 1
  {
    if n == 0 then 1 else 2 * Pow2(n - 1)
  }

  /** One observable step of a retry helper: the remote call on attempt
      `attempt`, or a wait of `duration` time units before the next call. */
  datatype Event = Call(attempt: nat) | Wait(duration: nat)

  /** The calls 0 .. k-1, each followed by its backoff wait `unit * 2^attempt`. */
  function Schedule(k: nat, unit: nat): (t: seq<Event>)
    ensures |t| == 2 * k
  {
    if k == 0 then [] else Schedule(k - 1, unit) + [Call(k - 1), Wait(unit * Pow2(k - 1))]
  }

  lemma {:induction false} ScheduleAt(k: nat, unit: nat, a: nat)
    requires a < k
    ensures Schedule(k, unit)[2 * a] == Call(a)
    ensures Schedule(k, unit)[2 * a + 1] == Wait(unit * Pow2(a))
  {
    if a < k - 1 {
      ScheduleAt(k - 1, unit, a);
      assert Schedule(k, unit)[..2 * (k - 1)] == Schedule(k - 1, unit);
    }
  }

  /** The attempt numbers of the calls in a trace, in order. */
  function Calls(t: seq<Event>): seq<nat> {
    if t == [] then []
    else (if t[0].Call? then [t[0].attempt] else []) + Calls(t[1..])
  }

  /** The durations of the waits in a trace, in order. */
  function Waits(t: seq<Event>): seq<nat> {
    if t == [] then []
    else (if t[0].Wait? then [t[0].duration] else []) + Waits(t[1..])
  }

  lemma {:induction false} CallsWaitsAppend(s: seq<Event>, t: seq<Event>)
    ensures Calls(s + t) == Calls(s) + Calls(t)
    ensures Waits(s + t) == Waits(s) + Waits(t)
  {
    if s == [] {
      assert s + t == t;
    } else {
      var u := s + t;
      assert u[0] == s[0];
      assert u[1..] == s[1..] + t;
      CallsWaitsAppend(s[1..], t);
      var c := if s[0].Call? then [s[0].attempt] else [];
      var w := if s[0].Wait? then [s[0].duration] else [];
      assert Calls(u) == c + Calls(u[1..]);
      assert Waits(u) == w + Waits(u[1..]);
      assert Calls(s) == c + Calls(s[1..]);
      assert Waits(s) == w + Waits(s[1..]);
    }
  }

  lemma CallShape(a: nat)
    ensures Calls([Call(a)]) == [a] && Waits([Call(a)]) == []
  {
    assert [Call(a)][1..] == [];
  }

  lemma StepShape(a: nat, d: nat)
    ensures Calls([Call(a), Wait(d)]) == [a] && Waits([Call(a), Wait(d)]) == [d]
  {
    var w := [Wait(d)];
    assert w[1..] == [];
    assert Calls(w) == [] && Waits(w) == [d];
    var pair := [Call(a), Wait(d)];
    assert pair[0] == Call(a);
    assert pair[1..] == w;
  }

  /** A run that stops on attempt `k` calls exactly 0, 1, ..., k in order and
      waits unit, 2 unit, 4 unit, ... between consecutive calls. */
  lemma {:induction false} RunShape(k: nat, unit: nat)
    ensures |Calls(Schedule(k, unit) + [Call(k)])| == k + 1
    ensures forall a :: 0 <= a <= k ==> Calls(Schedule(k, unit) + [Call(k)])[a] == a
    ensures |Waits(Schedule(k, unit) + [Call(k)])| == k
    ensures forall a :: 0 <= a < k ==> Waits(Schedule(k, unit) + [Call(k)])[a] == unit * Pow2(a)
  {
    CallShape(k);
    if k == 0 {
      assert Schedule(0, unit) + [Call(0)] == [Call(0)];
    } else {
      var prev := Schedule(k - 1, unit);
      var d := unit * Pow2(k - 1);
      RunShape(k - 1, unit);
      CallShape(k - 1);
      StepShape(k - 1, d);
      CallsWaitsAppend(prev, [Call(k - 1)]);
      CallsWaitsAppend(prev, [Call(k - 1), Wait(d)]);
      CallsWaitsAppend(Schedule(k, unit), [Call(k)]);
      assert Calls(Schedule(k, unit) + [Call(k)]) == Calls(prev) + [k - 1] + [k];
      assert Waits(Schedule(k, unit) + [Call(k)]) == Waits(prev) + [d];
    }
  }

  /** The attempt that ends a retry loop of at most `maxRetries` attempts,
      looking from attempt `from`: the first attempt that did not fail
      transiently, or the last attempt permitted, whichever comes first. */
  function FirstStop(transient: nat -> bool, maxRetries: int, from: nat): (k: nat)
    requires from < maxRetries
    ensures from <= k < maxRetries
    ensures !transient(k) || k == maxRetries - 1
    ensures forall a :: from <= a < k ==> transient(a)
    decreases maxRetries - from
  {
    if from == maxRetries - 1 || !transient(from) then from
    else FirstStop(transient, maxRetries, from + 1)
  }

  /** The stopping attempt is determined by the failures before it. */
  lemma FirstStopIs(transient: nat -> bool, maxRetries: int, k: nat)
    requires k < maxRetries
    requires forall a :: 0 <= a < k ==> transient(a)
    requires !transient(k) || k == maxRetries - 1
    ensures FirstStop(transient, maxRetries, 0) == k
  {
  }
}

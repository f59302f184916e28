/** Runs of a step relation, and what can be reached along them. */
module Runs {

  /** Each state of `more` follows on the one before it, the first one on s. */
  ghost predicate Steps<S(!new)>(next: (S, S) -> bool, s: S, more: seq<S>)
    decreases |more|
  {
    more == [] || (next(s, more[0]) && Steps(next, more[0], more[1..]))
  }

  function End<S>(s: S, more: seq<S>): S {
    if more == [] then s else more[|more| - 1]
  }

  ghost predicate Reaches<S(!new)>(next: (S, S) -> bool, s: S, s': S) {
    exists more: seq<S> :: Steps(next, s, more) && End(s, more) == s'
  }

  lemma ReachesSelf<S(!new)>(next: (S, S) -> bool, s: S)
    ensures Reaches(next, s, s)
  {
    assert Steps(next, s, []) && End(s, []) == s;
  }

  lemma {:induction false} StepsConcat<S(!new)>(next: (S, S) -> bool, s: S, a: seq<S>, b: seq<S>)
    requires Steps(next, s, a) && Steps(next, End(s, a), b)
    ensures Steps(next, s, a + b) && End(s, a + b) == End(End(s, a), b)
    decreases |a|
  {
    if a == [] {
      assert a + b == b;
    } else {
      StepsConcat(next, a[0], a[1..], b);
      assert (a + b)[1..] == a[1..] + b;
    }
  }

  lemma ReachesOn<S(!new)>(next: (S, S) -> bool, s: S, t: S, u: S)
    requires Reaches(next, s, t) && Reaches(next, t, u)
    ensures Reaches(next, s, u)
  {
    var a: seq<S> :| Steps(next, s, a) && End(s, a) == t;
    var b: seq<S> :| Steps(next, t, b) && End(t, b) == u;
    StepsConcat(next, s, a, b);
  }

  lemma ReachesNext<S(!new)>(next: (S, S) -> bool, s: S, t: S, u: S)
    requires next(s, t) && Reaches(next, t, u)
    ensures Reaches(next, s, u)
  {
    var more: seq<S> :| Steps(next, t, more) && End(t, more) == u;
    var all := [t] + more;
    assert all[0] == t && all[1..] == more;
    assert Steps(next, s, all) && End(s, all) == u;
  }

  /** A run goes on along the steps to what its last state reaches. */
  lemma {:induction false} Extended<S(!new)>(next: (S, S) -> bool, run: seq<S>, more: seq<S>)
    requires run != [] && forall i :: 0 <= i < |run| - 1 ==> next(run[i], run[i + 1])
    requires Steps(next, run[|run| - 1], more)
    ensures var all := run + more;
      && all[0] == run[0] && all[|all| - 1] == End(run[|run| - 1], more)
      && forall i :: 0 <= i < |all| - 1 ==> next(all[i], all[i + 1])
    decreases |more|
  {
    if more == [] {
      assert run + more == run;
    } else {
      Extended(next, run + [more[0]], more[1..]);
      assert run + [more[0]] + more[1..] == run + more;
    }
  }
}

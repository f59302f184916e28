/** The round table: n philosophers, each with a left and a right neighbour. */
module Table {

  datatype State = THINKING | HUNGRY | EATING

  function Left(n: nat, i: nat): (l: nat)
    requires i < n
    ensures l < n
  {
    if i == 0 then n - 1 else i - 1
  }

  function Right(n: nat, i: nat): (r: nat)
    requires i < n
    ensures r < n
  {
    if i + 1 == n then 0 else i + 1
  }

  /** The neighbours are the ones the program computes with the remainder. */
  lemma NeighboursAreRemainders(n: nat, i: nat)
    requires i < n
    ensures Left(n, i) == (i - 1 + n) % n
    ensures Right(n, i) == (i + 1) % n
  {
    if i == 0 {
      assert n - 1 < n;
    } else {
      assert (i - 1 + n) % n == i - 1 by { ModPlus(i - 1, n); }
    }
    if i + 1 == n {
      ModPlus(0, n);
    }
  }

  lemma ModPlus(a: nat, n: nat)
    requires a < n
    ensures (a + n) % n == a
  {
  }

  /** Whom a philosopher tests: itself when taking forks, its neighbours when putting them back. */
  datatype Target = Me | LeftOne | RightOne

  function Who(n: nat, i: nat, who: Target): (j: nat)
    requires i < n
    ensures j < n
  {
    match who
    case Me => i
    case LeftOne => Left(n, i)
    case RightOne => Right(n, i)
  }

  /** The test of phi_test: i is hungry and neither neighbour is eating. */
  predicate MayEat(state: seq<State>, i: nat)
    requires i < |state|
  {
    state[i] == HUNGRY && state[Left(|state|, i)] != EATING && state[Right(|state|, i)] != EATING
  }

  /** No two neighbours are eating. */
  predicate Peaceful(state: seq<State>) {
    forall i :: 0 <= i < |state| ==> !(state[i] == EATING && state[Right(|state|, i)] == EATING)
  }

  lemma StartEating(state: seq<State>, i: nat)
    requires |state| >= 2
    requires i < |state|
    requires Peaceful(state) && MayEat(state, i)
    ensures Peaceful(state[i := EATING])
    ensures forall j :: 0 <= j < |state| && MayEat(state[i := EATING], j) ==> j != i && MayEat(state, j)
  {
    var state' := state[i := EATING];
    forall j | 0 <= j < |state|
      ensures !(state'[j] == EATING && state'[Right(|state|, j)] == EATING)
    {
    }
  }

  /** Stopping to eat can let only the two neighbours eat. */
  lemma StopEating(state: seq<State>, i: nat)
    requires |state| >= 2
    requires i < |state|
    requires Peaceful(state)
    ensures Peaceful(state[i := THINKING])
    ensures forall j :: 0 <= j < |state| && MayEat(state[i := THINKING], j) ==>
      MayEat(state, j) || j == Left(|state|, i) || j == Right(|state|, i)
  {
    forall j | 0 <= j < |state| && MayEat(state[i := THINKING], j)
      ensures MayEat(state, j) || j == Left(|state|, i) || j == Right(|state|, i)
    {
    }
  }
}

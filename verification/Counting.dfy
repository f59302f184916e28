/** Counting the threads of a table that are in a given group, and summing a table. */
module Counting {

  function B(b: bool): int {
    if b then 1 else 0
  }

  /** How many flags are set. */
  function Count(s: seq<bool>): (n: nat)
    ensures n <= |s|
  {
    if s == [] then 0 else Count(s[..|s| - 1]) + B(s[|s| - 1])
  }

  lemma {:induction false} CountUpdate(s: seq<bool>, i: nat, b: bool)
    requires i < |s|
    ensures Count(s[i := b]) == Count(s) - B(s[i]) + B(b)
  {
    var n := |s| - 1;
    if i < n {
      CountUpdate(s[..n], i, b);
      assert s[i := b][..n] == s[..n][i := b];
    } else {
      assert s[i := b][..n] == s[..n];
    }
  }

  lemma {:induction false} CountWitness(s: seq<bool>) returns (i: nat)
    requires Count(s) > 0
    ensures i < |s| && s[i]
  {
    if s[|s| - 1] {
      i := |s| - 1;
    } else {
      i := CountWitness(s[..|s| - 1]);
    }
  }

  lemma CountMember(s: seq<bool>, i: nat)
    requires i < |s| && s[i]
    ensures Count(s) >= 1
  {
    CountUpdate(s, i, false);
  }

  lemma CountTwo(s: seq<bool>, i: nat, j: nat)
    requires i < |s| && s[i]
    requires j < |s| && s[j]
    requires i != j
    ensures Count(s) >= 2
  {
    CountUpdate(s, i, false);
    CountMember(s[i := false], j);
  }

  lemma {:induction false} CountNone(s: seq<bool>)
    requires forall i :: 0 <= i < |s| ==> !s[i]
    ensures Count(s) == 0
  {
    if s != [] {
      CountNone(s[..|s| - 1]);
    }
  }

  function Sum(s: seq<int>): int {
    if s == [] then 0 else Sum(s[..|s| - 1]) + s[|s| - 1]
  }

  lemma {:induction false} SumUpdate(s: seq<int>, i: nat, x: int)
    requires i < |s|
    ensures Sum(s[i := x]) == Sum(s) - s[i] + x
  {
    var n := |s| - 1;
    if i < n {
      SumUpdate(s[..n], i, x);
      assert s[i := x][..n] == s[..n][i := x];
    } else {
      assert s[i := x][..n] == s[..n];
    }
  }

  lemma {:induction false} SumNonNegative(s: seq<int>)
    requires forall i :: 0 <= i < |s| ==> s[i] >= 0
    ensures Sum(s) >= 0
  {
    if s != [] {
      SumNonNegative(s[..|s| - 1]);
    }
  }

  lemma SumAtLeast(s: seq<int>, i: nat)
    requires i < |s|
    requires forall j :: 0 <= j < |s| ==> s[j] >= 0
    ensures s[i] <= Sum(s)
  {
    SumUpdate(s, i, 0);
    SumNonNegative(s[i := 0]);
  }

  lemma {:induction false} SumPositive(s: seq<int>) returns (i: nat)
    requires Sum(s) > 0
    ensures i < |s| && s[i] > 0
  {
    if s[|s| - 1] > 0 {
      i := |s| - 1;
    } else {
      i := SumPositive(s[..|s| - 1]);
    }
  }

  lemma {:induction false} SumLess(a: seq<int>, b: seq<int>, t: nat)
    requires |a| == |b| && t < |a| && a[t] < b[t]
    requires forall i :: 0 <= i < |a| ==> a[i] <= b[i]
    ensures Sum(a) < Sum(b)
  {
    var n := |a| - 1;
    if t < n {
      SumLess(a[..n], b[..n], t);
    } else {
      SumLeast(a[..n], b[..n]);
    }
  }

  lemma {:induction false} SumLeast(a: seq<int>, b: seq<int>)
    requires |a| == |b| && forall i :: 0 <= i < |a| ==> a[i] <= b[i]
    ensures Sum(a) <= Sum(b)
  {
    if a != [] {
      var n := |a| - 1;
      SumLeast(a[..n], b[..n]);
    }
  }
}

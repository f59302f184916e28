/**
 Stride arithmetic: the 32-bit comparison of strides that wrap around, and what always
 picking a smallest stride means for the share of each process.
 */
module Strides {

  import opened Words

  const BIG_STRIDE: int := 0x7FFF_FFFF

  /** proc_stride_comp_f on two stored strides. */
  function Compare(p: int, q: int): int
    requires 0 <= p < WORD && 0 <= q < WORD
  {
    var c := Signed(Wrap(p - q));
    if c > 0 then 1 else if c == 0 then 0 else -1
  }

  lemma WrapDifference(x: int, y: int)
    ensures Wrap(Wrap(x) - Wrap(y)) == Wrap(x - y)
  {
    var a, b := x / WORD, y / WORD;
    assert Wrap(x) - Wrap(y) == x - y + (b - a) * WORD;
    WrapMultiple(x - y, b - a);
  }

  lemma {:induction false} WrapMultiple(x: int, k: int)
    ensures Wrap(x + k * WORD) == Wrap(x)
    decreases if k < 0 then -k else k
  {
    if k > 0 {
      WrapMultiple(x, k - 1);
      assert x + k * WORD == (x + (k - 1) * WORD) + WORD;
    } else if k < 0 {
      WrapMultiple(x, k + 1);
      assert x + k * WORD == (x + (k + 1) * WORD) - WORD;
    }
  }

  /** The sum stored in a uint32_t does not depend on what was wrapped before. */
  lemma WrapSum(x: int, d: int)
    ensures Wrap(Wrap(x) + d) == Wrap(x + d)
  {
    var a := x / WORD;
    assert Wrap(x) + d == x + d + (-a) * WORD;
    WrapMultiple(x + d, -a);
  }

  /**
   For strides less than one lap apart, the comparison of the stored words agrees with the true
   order exactly when their difference fits an int32_t.
   */
  lemma CompareIsTrueOrder(x: int, y: int)
    requires -WORD < x - y < WORD
    ensures (Compare(Wrap(x), Wrap(y)) == (if x > y then 1 else if x == y then 0 else -1))
      <==> -0x8000_0000 <= x - y <= 0x7FFF_FFFF
  {
    WrapDifference(x, y);
  }

  /** BIG_STRIDE is the widest window for which that is so. */
  lemma WindowIsWidest(x: int, d: nat)
    requires d <= BIG_STRIDE + 1
    ensures Compare(Wrap(x + d), Wrap(x)) == (if d == 0 then 0 else 1) <==> d <= BIG_STRIDE
  {
    CompareIsTrueOrder(x + d, x);
  }

  /** What stride_pick_next adds to the stride of the process it picks. */
  function Pass(priority: nat): (d: nat)
    ensures d <= BIG_STRIDE
  {
    if priority == 0 then BIG_STRIDE else BIG_STRIDE / priority
  }

  /** What a process counts for: its priority, with 0 counting as 1. */
  function Weight(priority: nat): (w: nat)
    ensures w >= 1
  {
    if priority == 0 then 1 else priority
  }

  /** A pass is BIG_STRIDE divided by the weight, rounded down. */
  lemma PassMeaning(priority: nat)
    ensures Pass(0) == Pass(1) == BIG_STRIDE
    ensures Pass(priority) * Weight(priority) <= BIG_STRIDE < (Pass(priority) + 1) * Weight(priority)
    ensures Weight(priority) <= BIG_STRIDE ==> Pass(priority) >= 1
  {
    var w, d := Weight(priority), Pass(priority);
    assert d == BIG_STRIDE / w;
    assert BIG_STRIDE == w * d + BIG_STRIDE % w;
    if d == 0 {
      assert (d + 1) * w == w;
    }
  }

  /** A heavier process has no longer pass. */
  lemma PassFalls(heavy: nat, light: nat)
    requires Weight(heavy) >= Weight(light)
    ensures Pass(heavy) <= Pass(light)
  {
    hide Pass, Weight;
    PassMeaning(heavy);
    PassMeaning(light);
    QuotientFalls(Weight(heavy), Weight(light), Pass(heavy), Pass(light), BIG_STRIDE);
  }

  lemma QuotientFalls(a: nat, b: nat, x: nat, y: nat, n: int)
    requires b <= a && x * a <= n < (y + 1) * b
    ensures x <= y
  {
    Scale(b, a, y + 1);
    if y < x {
      Scale(y + 1, x, a);
    }
  }

  lemma Scale(x: int, y: int, k: nat)
    requires x <= y
    ensures x * k <= y * k && k * x <= k * y
  {
  }

  /** If k turns of the light one are covered by the m turns and one pass more of the heavy one, they are at most one more. */
  lemma TurnsOfLight(heavy: nat, light: nat, k: nat, m: nat)
    requires Weight(light) <= Weight(heavy) <= BIG_STRIDE
    requires k * Pass(light) - m * Pass(heavy) <= Pass(light)
    ensures k <= m + 1
  {
    hide Pass, Weight;
    PassFalls(heavy, light);
    PassMeaning(light);
    var x, y := Pass(heavy), Pass(light);
    Scale(x, y, m);
    assert (m + 2) * y == m * y + 2 * y;
    if k >= m + 2 {
      Scale(m + 2, k, y);
    }
  }

  /** Turns are in proportion to the weights, up to one turn and the rounding of the passes. */
  lemma TurnsInProportion(p: nat, q: nat, k: nat, m: nat)
    requires Weight(p) <= BIG_STRIDE
    requires k * Pass(p) - m * Pass(q) <= Pass(p)
    ensures (k - 1) * Weight(q) * (BIG_STRIDE - Weight(p)) <= m * Weight(p) * BIG_STRIDE
  {
    hide Pass, Weight;
    PassMeaning(p);
    PassMeaning(q);
    var a, b, x, y := Weight(p), Weight(q), Pass(p), Pass(q);
    if k >= 1 {
      // (k - 1) x <= m y, and y b <= BIG_STRIDE, and BIG_STRIDE - a < x a
      assert (k - 1) * x <= m * y by { assert (k - 1) * x == k * x - x; }
      assert (x + 1) * a == x * a + a;
      Product(k - 1, b, a, x, m, y);
    } else {
      assert (k - 1) * b * (BIG_STRIDE - a) == -b * (BIG_STRIDE - a);
      Scale(0, BIG_STRIDE - a, b);
    }
  }

  /**
   k turns at priority p and m turns at priority q are fair: the heavier process is at most one turn behind, and
   k - 1 : m is at most the ratio of the weights, but for the rounding of the passes.
   */
  predicate InProportion(k: nat, p: nat, m: nat, q: nat) {
    && (Weight(q) <= Weight(p) ==> m <= k + 1)
    && (k - 1) * Weight(q) * (BIG_STRIDE - Weight(p)) <= m * Weight(p) * BIG_STRIDE
  }

  lemma FairTurns(k: nat, p: nat, m: nat, q: nat, x: nat, y: nat)
    requires Weight(p) <= BIG_STRIDE && x == Pass(p) && y == Pass(q)
    requires k * x - m * y <= x && m * y - k * x <= y
    ensures InProportion(k, p, m, q)
  {
    hide Pass, Weight;
    TurnsInProportion(p, q, k, m);
    if Weight(q) <= Weight(p) {
      TurnsOfLight(p, q, m, k);
    }
  }

  lemma Product(k: nat, b: nat, a: nat, x: nat, m: nat, y: nat)
    requires k * x <= m * y && y * b <= BIG_STRIDE && BIG_STRIDE - a <= x * a
    ensures k * b * (BIG_STRIDE - a) <= m * a * BIG_STRIDE
  {
    calc {
      k * b * (BIG_STRIDE - a);
    <= { Scale(BIG_STRIDE - a, x * a, k * b); }
      k * b * (x * a);
    == { Reorder(k, b, x, a); }
      k * x * (a * b);
    <= { Scale(k * x, m * y, a * b); }
      m * y * (a * b);
    == { Reorder(m, y, a, b); }
      m * a * (y * b);
    <= { Scale(y * b, BIG_STRIDE, m * a); }
      m * a * BIG_STRIDE;
    }
  }

  lemma Reorder(a: int, b: int, c: int, d: int)
    ensures a * b * (c * d) == a * c * (d * b)
    ensures a * b * (c * d) == a * c * (b * d)
  {
    assert a * b * (c * d) == a * (b * (c * d));
    assert b * (c * d) == c * (d * b) == c * (b * d);
    assert a * c * (d * b) == a * (c * (d * b));
  }

  // ----- Always picking a smallest stride -----

  /** No stride is more than the window ahead of another. */
  predicate InWindow<P>(strides: map<P, int>) {
    forall p, q :: p in strides && q in strides ==> strides[p] - strides[q] <= BIG_STRIDE
  }

  predicate IsSmallest<P>(strides: map<P, int>, p: P) {
    p in strides && forall q :: q in strides ==> strides[p] <= strides[q]
  }

  ghost function Picked<P>(strides: map<P, int>, pass: map<P, nat>, p: P): map<P, int>
    requires p in strides && p in pass
  {
    strides[p := strides[p] + pass[p]]
  }

  /** Picking a smallest stride keeps all strides in the window, so the comparison stays right. */
  lemma PickKeepsWindow<P>(strides: map<P, int>, pass: map<P, nat>, p: P)
    requires InWindow(strides) && IsSmallest(strides, p)
    requires p in pass && pass[p] <= BIG_STRIDE
    ensures InWindow(Picked(strides, pass, p))
  {
  }

  /** The strides after a run of picks. */
  ghost function AfterPicks<P>(strides: map<P, int>, pass: map<P, nat>, picks: seq<P>): map<P, int>
    requires strides.Keys <= pass.Keys
    requires forall p :: p in picks ==> p in strides
    ensures AfterPicks(strides, pass, picks).Keys == strides.Keys
  {
    if picks == [] then strides
    else
      var last := picks[|picks| - 1];
      assert forall p :: p in picks[..|picks| - 1] ==> p in picks;
      Picked(AfterPicks(strides, pass, picks[..|picks| - 1]), pass, last)
  }

  /** Every pick of the run is a smallest stride at its time. */
  ghost predicate PicksSmallest<P>(strides: map<P, int>, pass: map<P, nat>, picks: seq<P>)
    requires strides.Keys <= pass.Keys
    requires forall p :: p in picks ==> p in strides
  {
    picks != [] ==>
      var before := picks[..|picks| - 1];
      assert forall p :: p in before ==> p in picks;
      && PicksSmallest(strides, pass, before)
      && IsSmallest(AfterPicks(strides, pass, before), picks[|picks| - 1])
  }

  ghost function Times<P>(picks: seq<P>, p: P): nat {
    multiset(picks)[p]
  }

  lemma TimesNext<P>(picks: seq<P>, last: P, p: P, pass: nat)
    ensures Times(picks + [last], p) * pass == Times(picks, p) * pass + if last == p then pass else 0
  {
    assert (Times(picks, p) + 1) * pass == Times(picks, p) * pass + pass;
  }

  /** A run of picks by the strides: no process runs ahead of another by more than its own pass. */
  lemma {:induction false} AheadByOnePass<P>(strides: map<P, int>, pass: map<P, nat>, picks: seq<P>, p: P, q: P)
    requires strides.Keys <= pass.Keys
    requires forall r :: r in picks ==> r in strides
    requires PicksSmallest(strides, pass, picks)
    requires p in strides && q in strides && strides[p] == strides[q]
    ensures var after := AfterPicks(strides, pass, picks);
      && after[p] - after[q] <= pass[p]
      && after[p] == strides[p] + Times(picks, p) * pass[p]
      && after[q] == strides[q] + Times(picks, q) * pass[q]
  {
    if picks != [] {
      var before, last := picks[..|picks| - 1], picks[|picks| - 1];
      assert picks == before + [last];
      assert forall r :: r in before ==> r in picks;
      AheadByOnePass(strides, pass, before, p, q);
      TimesNext(before, last, p, pass[p]);
      TimesNext(before, last, q, pass[q]);
      hide Times;
    }
  }

  /**
   Proportional fairness: from equal strides, over every run of picks, the service of any two
   processes weighted by their passes differs by at most one pass, hence by at most BIG_STRIDE.
   */
  lemma FairShare<P>(strides: map<P, int>, pass: map<P, nat>, picks: seq<P>, p: P, q: P)
    requires strides.Keys <= pass.Keys
    requires forall r :: r in pass ==> pass[r] <= BIG_STRIDE
    requires forall r :: r in picks ==> r in strides
    requires PicksSmallest(strides, pass, picks)
    requires p in strides && q in strides && strides[p] == strides[q]
    ensures Times(picks, p) * pass[p] - Times(picks, q) * pass[q] <= pass[p] <= BIG_STRIDE
    ensures Times(picks, q) * pass[q] - Times(picks, p) * pass[p] <= pass[q] <= BIG_STRIDE
  {
    AheadByOnePass(strides, pass, picks, p, q);
    AheadByOnePass(strides, pass, picks, q, p);
  }

  /** From anywhere inside the window, the strides stay inside it over every run of picks. */
  lemma {:induction false} WindowForever<P>(strides: map<P, int>, pass: map<P, nat>, picks: seq<P>)
    requires strides.Keys <= pass.Keys
    requires forall r :: r in pass ==> pass[r] <= BIG_STRIDE
    requires forall r :: r in picks ==> r in strides
    requires InWindow(strides)
    requires PicksSmallest(strides, pass, picks)
    ensures InWindow(AfterPicks(strides, pass, picks))
  {
    if picks != [] {
      var before := picks[..|picks| - 1];
      assert forall r :: r in before ==> r in picks;
      WindowForever(strides, pass, before);
      PickKeepsWindow(AfterPicks(strides, pass, before), pass, picks[|picks| - 1]);
    }
  }
}

/**
 LRU is a stack algorithm: with k frames it always holds the k most recently used
 pages, so its memories for different k are nested and more frames never hurt.
 */
module LruStack {
  import opened PageReplacement
  import opened Sequences

  /** All pages referenced by the first i accesses, least recently used first. */
  function Recency(trace: seq<int>, i: nat): seq<int>
    requires i <= |trace|
  {
    if i == 0 then [] else Without(Recency(trace, i - 1), trace[i - 1]) + [trace[i - 1]]
  }

  /** The last k elements of s, or all of them. */
  function Suffix(s: seq<int>, k: nat): seq<int> {
    if |s| <= k then s else s[|s| - k..]
  }

  /** Page p is referenced by one of the first i accesses. */
  ghost predicate Seen(trace: seq<int>, i: nat, p: int)
    requires i <= |trace|
  {
    exists j :: 0 <= j < i && trace[j] == p
  }

  /** The position of the last reference to page p among the first i accesses. */
  ghost function LastUse(trace: seq<int>, i: nat, p: int): (j: nat)
    requires i <= |trace|
    requires Seen(trace, i, p)
    ensures j < i && trace[j] == p
    ensures forall m :: j < m < i ==> trace[m] != p
  {
    if trace[i - 1] == p then i - 1 else LastUse(trace, i - 1, p)
  }

  // ----- What Recency means -----

  lemma InWithout(r: seq<int>, n: int)
    requires Distinct(r)
    ensures Distinct(Without(r, n))
    ensures forall p :: p in Without(r, n) <==> p in r && p != n
  {
    if n in r {
      DistinctRemoveAt(r, IndexOf(r, n));
      assert forall p :: p in Without(r, n) <==> p in Pages(Without(r, n));
      assert forall p :: p in r <==> p in Pages(r);
    }
  }

  lemma {:induction false} RecencyPages(trace: seq<int>, i: nat)
    requires i <= |trace|
    ensures Distinct(Recency(trace, i))
    ensures forall p :: p in Recency(trace, i) <==> Seen(trace, i, p)
  {
    hide Without;
    if i == 0 {
    } else {
      RecencyPages(trace, i - 1);
      InWithout(Recency(trace, i - 1), trace[i - 1]);
      DistinctAppend(Without(Recency(trace, i - 1), trace[i - 1]), trace[i - 1]);
    }
  }

  /** `order` lists the pages seen so far, each after those whose last use is older. */
  ghost predicate ByLastUse(trace: seq<int>, i: nat, order: seq<int>)
    requires i <= |trace|
  {
    && (forall p :: p in order <==> Seen(trace, i, p))
    && (forall a, b :: 0 <= a < b < |order| ==> LastUse(trace, i, order[a]) < LastUse(trace, i, order[b]))
  }

  /** Where the element at position a of Without(r, n) was in r. */
  lemma WithoutAt(r: seq<int>, n: int, a: nat) returns (a': nat)
    requires Distinct(r)
    requires a < |Without(r, n)|
    ensures a' == if a < IndexOf(r, n) then a else a + 1
    ensures a' < |r| && r[a'] == Without(r, n)[a] != n && r[a'] in r
  {
    hide RemoveAt;
    var d := IndexOf(r, n);
    a' := if a < d then a else a + 1;
    if d < |r| {
      RemoveAtIndex(r, d, a);
    }
  }

  lemma ByLastUseStep(trace: seq<int>, i: nat, r: seq<int>, next: seq<int>)
    requires i < |trace|
    requires Distinct(r)
    requires ByLastUse(trace, i, r)
    requires next == Without(r, trace[i]) + [trace[i]]
    requires forall p :: p in next <==> Seen(trace, i + 1, p)
    ensures ByLastUse(trace, i + 1, next)
  {
    var n := trace[i];
    hide Without, LastUse, Seen, Distinct;
    assert forall a :: 0 <= a < |next| ==> next[a] in next;
    forall a, b | 0 <= a < b < |next|
      ensures LastUse(trace, i + 1, next[a]) < LastUse(trace, i + 1, next[b])
    {
      var a' := WithoutAt(r, n, a);
      if b < |next| - 1 {
        var b' := WithoutAt(r, n, b);
      }
    }
  }

  /** Recency lists the pages seen so far, each once, in the order of their last use. */
  lemma {:induction false} RecencyOrdered(trace: seq<int>, i: nat)
    requires i <= |trace|
    ensures ByLastUse(trace, i, Recency(trace, i))
  {
    hide Without, Seen;
    RecencyPages(trace, i);
    if i == 0 {
    } else {
      RecencyOrdered(trace, i - 1);
      RecencyPages(trace, i - 1);
      ByLastUseStep(trace, i - 1, Recency(trace, i - 1), Recency(trace, i));
    }
  }

  // ----- The stack property -----

  lemma {:induction false} IndexIs(s: seq<int>, x: int, i: nat)
    requires i < |s| && s[i] == x
    requires forall j :: 0 <= j < i ==> s[j] != x
    ensures IndexOf(s, x) == i
  {
    var k := IndexOf(s, x);
    assert k >= i;
    assert s[i] == x;
  }

  lemma RemoveAtConcat(a: seq<int>, b: seq<int>, j: nat)
    requires j < |b|
    ensures RemoveAt(a + b, |a| + j) == a + RemoveAt(b, j)
  {
  }

  lemma WithoutConcat(a: seq<int>, b: seq<int>, n: int)
    requires n !in a
    ensures Without(a + b, n) == a + Without(b, n)
  {
    hide RemoveAt;
    if n in b {
      var j := IndexOf(b, n);
      IndexIs(a + b, n, |a| + j);
      RemoveAtConcat(a, b, j);
    } else {
      assert n !in a + b;
    }
  }

  lemma DistinctConcat(a: seq<int>, b: seq<int>, n: int)
    requires Distinct(a + b)
    requires n in b
    ensures n !in a
  {
    var j :| 0 <= j < |b| && b[j] == n;
    assert (a + b)[|a| + j] == n;
    forall i | 0 <= i < |a|
      ensures a[i] != n
    {
      assert (a + b)[i] == a[i];
    }
  }

  /** What an LRU access does to a memory of k frames. */
  function LruStep(m: seq<int>, k: nat, n: int): seq<int>
    requires k >= 1
  {
    if n in m then Without(m, n) + [n] else if |m| == k then RemoveAt(m, 0) + [n] else m + [n]
  }

  lemma SuffixHit(r: seq<int>, k: nat, n: int)
    requires k >= 1
    requires Distinct(r)
    requires n in Suffix(r, k)
    ensures Suffix(Without(r, n) + [n], k) == LruStep(Suffix(r, k), k, n)
  {
    hide Distinct, Without;
    var m := Suffix(r, k);
    var a := r[..|r| - |m|];
    assert r == a + m;
    DistinctConcat(a, m, n);
    WithoutConcat(a, m, n);
    WithoutSize(m, n);
    assert a + Without(m, n) + [n] == a + (Without(m, n) + [n]);
  }

  lemma WithoutSize(m: seq<int>, n: int)
    ensures |Without(m, n)| == |m| - if n in m then 1 else 0
  {
  }

  lemma SuffixMiss(r: seq<int>, k: nat, n: int)
    requires k >= 1
    requires n !in Suffix(r, k)
    ensures Suffix(Without(r, n) + [n], k) == LruStep(Suffix(r, k), k, n)
  {
    hide RemoveAt;
    if |r| >= k {
      SuffixMissFull(r, k, n);
    }
  }

  lemma SuffixMissFull(r: seq<int>, k: nat, n: int)
    requires 1 <= k <= |r|
    requires n !in Suffix(r, k)
    ensures Suffix(Without(r, n) + [n], k) == LruStep(Suffix(r, k), k, n)
  {
    hide Without, RemoveAt;
    var m := Suffix(r, k);
    var a, c := r[..|r| - k], m[1..];
    var a' := Without(a, n);
    assert r == a + m;
    WithoutAbsent(a, m, n);
    HeadRemoved(m);
    assert m == [m[0]] + c;
    assert a' + m + [n] == (a' + [m[0]]) + (c + [n]);
  }

  lemma HeadRemoved(m: seq<int>)
    requires m != []
    ensures RemoveAt(m, 0) == m[1..]
  {
  }

  lemma RemoveAtPrefix(a: seq<int>, b: seq<int>, i: nat)
    requires i < |a|
    ensures RemoveAt(a + b, i) == RemoveAt(a, i) + b
  {
  }

  lemma WithoutAbsent(a: seq<int>, b: seq<int>, n: int)
    requires n !in b
    ensures Without(a + b, n) == Without(a, n) + b
  {
    hide RemoveAt;
    if n in a {
      var i := IndexOf(a, n);
      IndexIs(a + b, n, i);
      RemoveAtPrefix(a, b, i);
    } else {
      assert n !in a + b;
    }
  }

  /** With k frames LRU holds the k most recently used pages, in recency order. */
  lemma {:induction false} LruHoldsMostRecent(trace: seq<int>, k: nat, i: nat)
    requires k >= 1
    requires i <= |trace|
    ensures Memory(LRU, trace, k, i) == Suffix(Recency(trace, i), k)
  {
    hide Without, Distinct, Pages;
    if i == 0 {
    } else {
      var r, n := Recency(trace, i - 1), trace[i - 1];
      LruHoldsMostRecent(trace, k, i - 1);
      RecencyPages(trace, i - 1);
      if n in Suffix(r, k) {
        SuffixHit(r, k, n);
      } else {
        SuffixMiss(r, k, n);
      }
      assert Memory(LRU, trace, k, i) == LruStep(Suffix(r, k), k, n);
    }
  }

  lemma SuffixNested(r: seq<int>, k: nat, k': nat)
    requires k <= k'
    ensures |Suffix(r, k)| <= |Suffix(r, k')|
    ensures Suffix(r, k) == Suffix(r, k')[|Suffix(r, k')| - |Suffix(r, k)|..]
  {
  }

  /** The k-frame memory list is always a suffix of the list with more frames. */
  lemma LruStackProperty(trace: seq<int>, k: nat, k': nat, i: nat)
    requires 1 <= k <= k'
    requires i <= |trace|
    ensures |Memory(LRU, trace, k, i)| <= |Memory(LRU, trace, k', i)|
    ensures var m, m' := Memory(LRU, trace, k, i), Memory(LRU, trace, k', i);
      m == m'[|m'| - |m|..]
  {
    hide Memory, Recency, Suffix;
    LruHoldsMostRecent(trace, k, i);
    LruHoldsMostRecent(trace, k', i);
    SuffixNested(Recency(trace, i), k, k');
  }

  /** No Belady anomaly: after every prefix of the trace, more frames have missed no more often. */
  lemma {:induction false} LruMoreFramesNeverHurt(trace: seq<int>, k: nat, k': nat, i: nat)
    requires 1 <= k <= k'
    requires i <= |trace|
    ensures Misses(LRU, trace, k', i) <= Misses(LRU, trace, k, i)
  {
    hide Access;
    if i == 0 {
    } else {
      LruMoreFramesNeverHurt(trace, k, k', i - 1);
      LruStackProperty(trace, k, k', i - 1);
    }
  }

  // ----- Which accesses hit -----

  /** The pages referenced since the last reference to page p. */
  ghost function Since(trace: seq<int>, i: nat, p: int): set<int>
    requires i <= |trace|
    requires Seen(trace, i, p)
  {
    set m | LastUse(trace, i, p) < m < i :: trace[m]
  }

  /** The pages behind p in recency order are those referenced since p. */
  lemma RecencyTail(trace: seq<int>, i: nat, p: int, r: seq<int>, d: nat)
    requires i <= |trace|
    requires ByLastUse(trace, i, r)
    requires d < |r| && r[d] == p
    ensures r[d] in r && Since(trace, i, p) == Pages(r[d + 1..])
  {
    assert p in r;
    var tail := r[d + 1..];
    forall m | LastUse(trace, i, p) < m < i
      ensures trace[m] in tail
    {
      var q := trace[m];
      assert q in r;
      var b :| 0 <= b < |r| && r[b] == q;
      assert LastUse(trace, i, q) >= m;
      assert b > d;
      assert tail[b - d - 1] == q;
    }
    forall q | q in tail
      ensures q in Since(trace, i, p)
    {
      var b :| 0 <= b < |tail| && tail[b] == q;
      assert r[b + d + 1] == q && q in r;
      assert trace[LastUse(trace, i, q)] == q;
    }
  }

  /**
   An access hits under LRU with k frames exactly when its page was referenced before
   and fewer than k distinct pages have been referenced since.
   */
  lemma LruHitIffStackDistance(trace: seq<int>, k: nat, i: nat)
    requires k >= 1
    requires i < |trace|
    ensures trace[i] in Memory(LRU, trace, k, i)
      <==> Seen(trace, i, trace[i]) && |Since(trace, i, trace[i])| < k
  {
    hide Recency, Memory, Seen, LastUse;
    var p, r := trace[i], Recency(trace, i);
    LruHoldsMostRecent(trace, k, i);
    RecencyOrdered(trace, i);
    RecencyPages(trace, i);
    var m := Suffix(r, k);
    if p in r {
      var d := IndexOf(r, p);
      RecencyTail(trace, i, p, r, d);
      DistinctSize(r[d + 1..]);
      if d >= |r| - |m| {
        assert m[d - (|r| - |m|)] == p;
      }
    }
  }
}

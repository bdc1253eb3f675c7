/** The in-place bubble sort that orders the ring segments by angle (src/array.h). */
module SegmentSort {
  import opened Types

  /** The length of the prefix `sort(a, n)` works on: a negative `n` sorts nothing. */
  function Prefix(n: int): nat {
    if n < 0 then 0 else n
  }

  predicate SortedByValue(s: seq<TimeSegment>) {
    forall i, j :: 0 <= i < j < |s| ==> s[i].value <= s[j].value
  }

  /** The segments of `s` whose value is `v`, in the order they have in `s`. */
  function WithValue(s: seq<TimeSegment>, v: int): (r: seq<TimeSegment>)
    ensures |r| <= |s|
  {
    if s == [] then []
    else (if s[0].value == v then [s[0]] else []) + WithValue(s[1..], v)
  }

  /** `WithValue(s, v)` holds exactly the segments of `s` whose value is `v`. */
  lemma {:induction false} WithValueMembers(s: seq<TimeSegment>, v: int)
    ensures forall x :: x in WithValue(s, v) <==> x in s && x.value == v
  {
    if s != [] {
      WithValueMembers(s[1..], v);
      assert s == [s[0]] + s[1..];
    }
  }

  /** `t` keeps every run of equal-valued segments of `s` in the same order:
      the relation between the input and output of a stable sort. */
  ghost predicate SameRuns(s: seq<TimeSegment>, t: seq<TimeSegment>) {
    forall v :: WithValue(s, v) == WithValue(t, v)
  }

  lemma {:induction false} WithValueAppend(s: seq<TimeSegment>, t: seq<TimeSegment>, v: int)
    ensures WithValue(s + t, v) == WithValue(s, v) + WithValue(t, v)
  {
    if s == [] {
      assert s + t == t;
    } else {
      var head := if s[0].value == v then [s[0]] else [];
      assert (s + t)[0] == s[0];
      assert (s + t)[1..] == s[1..] + t;
      assert WithValue(s + t, v) == head + WithValue(s[1..] + t, v);
      WithValueAppend(s[1..], t, v);
      assert WithValue(s, v) == head + WithValue(s[1..], v);
    }
  }

  lemma PairRuns(x: TimeSegment, y: TimeSegment, v: int)
    requires x.value != y.value
    ensures WithValue([x, y], v) == WithValue([y, x], v)
  {
    assert [x, y][1..] == [y];
    assert [y, x][1..] == [x];
  }

  /** Swapping two neighbours of different value keeps every run: the swap at
      src/array.h:13-15 is guarded by a strict comparison. */
  lemma SwapKeepsRuns(s: seq<TimeSegment>, j: nat)
    requires j + 1 < |s|
    requires s[j].value != s[j + 1].value
    ensures SameRuns(s, s[j := s[j + 1]][j + 1 := s[j]])
  {
    var t := s[j := s[j + 1]][j + 1 := s[j]];
    var pre, pair, swapped, post := s[..j], [s[j], s[j + 1]], [s[j + 1], s[j]], s[j + 2..];
    assert s == pre + (pair + post);
    assert t == pre + (swapped + post);
    forall v ensures WithValue(s, v) == WithValue(t, v) {
      WithValueAppend(pre, pair + post, v);
      WithValueAppend(pair, post, v);
      WithValueAppend(pre, swapped + post, v);
      WithValueAppend(swapped, post, v);
      PairRuns(s[j], s[j + 1], v);
    }
  }

  lemma EmptyRuns(s: seq<TimeSegment>)
    ensures (forall v :: WithValue(s, v) == []) ==> s == []
  {
    if s != [] {
      WithValueMembers(s, s[0].value);
    }
  }

  lemma WithValueCons(s: seq<TimeSegment>, v: int)
    requires s != []
    ensures WithValue(s, v) == if s[0].value == v then [s[0]] + WithValue(s[1..], v) else WithValue(s[1..], v)
  {
  }

  /** Two sequences with the same runs and the same head have tails with the same runs. */
  lemma TailRuns(s: seq<TimeSegment>, t: seq<TimeSegment>)
    requires s != [] && t != [] && s[0] == t[0]
    requires SameRuns(s, t)
    ensures SameRuns(s[1..], t[1..])
  {
    forall u ensures WithValue(s[1..], u) == WithValue(t[1..], u) {
      WithValueCons(s, u);
      WithValueCons(t, u);
      if s[0].value == u {
        assert WithValue(s, u)[1..] == WithValue(s[1..], u);
        assert WithValue(t, u)[1..] == WithValue(t[1..], u);
      }
    }
  }

  /** The head of `s` has a value in `t`, so it is no smaller than the head of a sorted `t`. */
  lemma HeadNotBelow(s: seq<TimeSegment>, t: seq<TimeSegment>)
    requires SortedByValue(t) && s != [] && t != [] && SameRuns(s, t)
    ensures t[0].value <= s[0].value
  {
    var v := s[0].value;
    WithValueMembers(s, v);
    WithValueMembers(t, v);
    assert s[0] in WithValue(s, v);
    var k :| 0 <= k < |t| && t[k] == s[0];
  }

  /** Two sorted sequences with the same runs start with the same segment. */
  lemma SameHead(s: seq<TimeSegment>, t: seq<TimeSegment>)
    requires SortedByValue(s) && SortedByValue(t) && s != [] && t != []
    requires SameRuns(s, t)
    ensures s[0] == t[0]
  {
    HeadNotBelow(s, t);
    HeadNotBelow(t, s);
    var v := s[0].value;
    WithValueCons(s, v);
    WithValueCons(t, v);
    assert s[0] == WithValue(s, v)[0] == WithValue(t, v)[0] == t[0];
  }

  /** Sortedness and stability determine the result: two sorted sequences with the
      same runs are equal. So every stable sort agrees with this one. */
  lemma {:induction false} SortedSameRunsUnique(s: seq<TimeSegment>, t: seq<TimeSegment>)
    requires SortedByValue(s) && SortedByValue(t)
    requires SameRuns(s, t)
    ensures s == t
  {
    if s == [] || t == [] {
      EmptyRuns(s);
      EmptyRuns(t);
    } else {
      SameHead(s, t);
      TailRuns(s, t);
      SortedSameRunsUnique(s[1..], t[1..]);
      assert s == [s[0]] + s[1..];
      assert t == [t[0]] + t[1..];
    }
  }

  /** `a[lo..hi)` is in order. */
  ghost predicate OrderedBetween(s: seq<TimeSegment>, lo: int, hi: int)
    requires 0 <= lo && hi <= |s|
  {
    forall k, l :: lo <= k < l < hi ==> s[k].value <= s[l].value
  }

  /** Nothing in `s[0..b)` is larger than anything in `s[b..hi)`. */
  ghost predicate SplitAt(s: seq<TimeSegment>, b: int, hi: int)
    requires 0 <= b <= hi <= |s|
  {
    forall k, l :: 0 <= k < b <= l < hi ==> s[k].value <= s[l].value
  }

  /** The state between two passes: `s[b..hi)` holds the largest values, in order. */
  ghost predicate Settled(s: seq<TimeSegment>, b: int, hi: int)
    requires 0 <= b <= hi <= |s|
  {
    OrderedBetween(s, b, hi) && SplitAt(s, b, hi)
  }

  /** `s[j]` is the largest of `s[0..j]`. */
  ghost predicate MaxAt(s: seq<TimeSegment>, j: int)
    requires 0 <= j < |s|
  {
    forall k :: 0 <= k <= j ==> s[k].value <= s[j].value
  }

  /** One step of the inner loop, src/array.h:11-16. */
  function Step(s: seq<TimeSegment>, j: nat): seq<TimeSegment>
    requires j + 1 < |s|
  {
    if s[j].value > s[j + 1].value then s[j := s[j + 1]][j + 1 := s[j]] else s
  }

  lemma SameRunsTrans(r: seq<TimeSegment>, s: seq<TimeSegment>, t: seq<TimeSegment>)
    requires SameRuns(r, s) && SameRuns(s, t)
    ensures SameRuns(r, t)
  {
  }

  /** Two sequences with the same runs and the same tail have prefixes with the same runs. */
  lemma RunsOfPrefix(s: seq<TimeSegment>, t: seq<TimeSegment>, p: nat)
    requires p <= |s| && p <= |t| && s[p..] == t[p..]
    requires SameRuns(s, t)
    ensures SameRuns(s[..p], t[..p])
  {
    assert s == s[..p] + s[p..];
    assert t == t[..p] + t[p..];
    forall v ensures WithValue(s[..p], v) == WithValue(t[..p], v) {
      WithValueAppend(s[..p], s[p..], v);
      WithValueAppend(t[..p], t[p..], v);
      var x, y, z := WithValue(s[..p], v), WithValue(t[..p], v), WithValue(s[p..], v);
      assert x + z == y + z;
      assert x == (x + z)[..|x|];
      assert y == (y + z)[..|y|];
    }
  }

  /** What `sort` keeps between passes: `s` rearranges `s0[0..p)` with the same runs,
      leaves `s0[p..]` alone, and its positions `b..p` are settled. */
  ghost predicate Between(s0: seq<TimeSegment>, s: seq<TimeSegment>, p: nat, b: nat)
  {
    |s| == |s0| && b <= p <= |s| && s[p..] == s0[p..]
    && multiset(s[..p]) == multiset(s0[..p]) && SameRuns(s0, s) && Settled(s, b, p)
  }

  lemma StepOrders(s: seq<TimeSegment>, j: nat, b: nat, p: nat)
    requires j + 1 < b <= p <= |s|
    requires Settled(s, b, p) && MaxAt(s, j)
    ensures Settled(Step(s, j), b, p) && MaxAt(Step(s, j), j + 1)
  {
  }

  lemma StepPermutes(s: seq<TimeSegment>, j: nat, p: nat)
    requires j + 1 < p <= |s|
    ensures |Step(s, j)| == |s| && Step(s, j)[p..] == s[p..]
    ensures multiset(Step(s, j)[..p]) == multiset(s[..p])
  {
    if s[j].value > s[j + 1].value {
      assert Step(s, j)[..p] == s[..p][j := s[j + 1]][j + 1 := s[j]];
    }
  }

  /** One step of the inner loop keeps the state between passes, moves the running
      maximum one place up, and changes neither the multiset nor the runs nor the tail. */
  lemma StepKeeps(s0: seq<TimeSegment>, s: seq<TimeSegment>, j: nat, b: nat, p: nat)
    requires j + 1 < b
    requires Between(s0, s, p, b) && MaxAt(s, j)
    ensures Between(s0, Step(s, j), p, b) && MaxAt(Step(s, j), j + 1)
    ensures Step(s, j)[b..] == s[b..]
  {
    StepOrders(s, j, b, p);
    StepPermutes(s, j, p);
    if s[j].value > s[j + 1].value {
      SwapKeepsRuns(s, j);
      SameRunsTrans(s0, s, Step(s, j));
    }
  }

  lemma PassSettles(s0: seq<TimeSegment>, s: seq<TimeSegment>, p: nat, b: nat)
    requires 0 < b && Between(s0, s, p, b) && MaxAt(s, b - 1)
    ensures Between(s0, s, p, b - 1)
  {
  }

  lemma SettledIsSorted(s: seq<TimeSegment>, hi: nat)
    requires hi <= |s|
    requires hi > 0 ==> Settled(s, 1, hi)
    ensures SortedByValue(s[..hi])
  {
  }

  /** What the loops of `sort` leave behind gives its postcondition. */
  lemma SortFinish(s0: seq<TimeSegment>, s1: seq<TimeSegment>, p: nat)
    requires Between(s0, s1, p, if p > 0 then 1 else 0)
    ensures SortedByValue(s1[..p])
    ensures multiset(s1[..p]) == multiset(s0[..p])
    ensures s1[p..] == s0[p..]
    ensures SameRuns(s0[..p], s1[..p])
    ensures SortedByValue(s0[..p]) ==> s1 == s0
  {
    SettledIsSorted(s1, p);
    RunsOfPrefix(s0, s1, p);
    assert s1 == s1[..p] + s1[p..];
    assert s0 == s0[..p] + s0[p..];
    if SortedByValue(s0[..p]) {
      SortedSameRunsUnique(s1[..p], s0[..p]);
    }
  }

  lemma BetweenTrans(s0: seq<TimeSegment>, s1: seq<TimeSegment>, s2: seq<TimeSegment>, p: nat, b: nat, c: nat)
    requires Between(s0, s1, p, b) && Between(s1, s2, p, c)
    ensures Between(s0, s2, p, c)
  {
    SameRunsTrans(s0, s1, s2);
  }

  /** The state inside a pass: besides what holds between passes, `s[j]` is the
      largest of `s[0..j]` and the settled top `s[b..]` has not moved. */
  ghost predicate InPass(s0: seq<TimeSegment>, s: seq<TimeSegment>, p: nat, b: nat, j: nat)
  {
    j < b <= p <= |s| && Between(s0, s, p, b) && MaxAt(s, j) && s[b..] == s0[b..]
  }

  lemma InPassStep(s0: seq<TimeSegment>, s: seq<TimeSegment>, p: nat, b: nat, j: nat)
    requires j + 1 < b && InPass(s0, s, p, b, j)
    ensures InPass(s0, Step(s, j), p, b, j + 1)
  {
    StepKeeps(s0, s, j, b, p);
  }

  /** The exchange through `temp` at src/array.h:13-15. */
  method Swap(a: array<TimeSegment>, j: int)
    requires 0 <= j < a.Length - 1
    modifies a
    ensures a[..] == old(a[..])[j := old(a[j + 1])][j + 1 := old(a[j])]
  {
    var temp := a[j];
    a[j] := a[j + 1];
    a[j + 1] := temp;
  }

  /** One pass of `sort`, the inner loop at src/array.h:9-17: it carries the largest
      value of `a[0..n-i]` up to position `n - i` and leaves `a[n-i+1..n)` alone. */
  method BubblePass(a: array<TimeSegment>, n: int, i: int)
    requires 1 <= i < n <= a.Length
    requires Settled(a[..], n - i + 1, n)
    modifies a
    ensures Between(old(a[..]), a[..], n, n - i + 1) && MaxAt(a[..], n - i)
    ensures a[n - i + 1..] == old(a[n - i + 1..])
  {
    ghost var s0 := a[..];
    var j := 0;
    while j < n - i
      invariant 0 <= j <= n - i
      invariant InPass(s0, a[..], n, n - i + 1, j)
    {
      ghost var before := a[..];
      if a[j].value > a[j + 1].value {
        Swap(a, j);
      }
      assert a[..] == Step(before, j);
      InPassStep(s0, before, n, n - i + 1, j);
      j := j + 1;
    }
  }

  /** `sort(input_array, n)`: bubble sort of `a[0..n)` by `value`, swapping only on `>`.
      After pass `i`, the last `i` positions hold the `i` largest values in order. */
  method Sort(a: array<TimeSegment>, n: int)
    requires n <= a.Length
    modifies a
    ensures SortedByValue(a[..Prefix(n)])
    ensures multiset(a[..Prefix(n)]) == multiset(old(a[..Prefix(n)]))
    ensures SameRuns(old(a[..Prefix(n)]), a[..Prefix(n)])
    ensures a[Prefix(n)..] == old(a[Prefix(n)..])
    ensures SortedByValue(old(a[..Prefix(n)])) ==> a[..] == old(a[..])
    ensures n <= 1 ==> a[..] == old(a[..])
  {
    ghost var p := Prefix(n);
    ghost var s0 := a[..];
    var i := 1;
    while i < n
      invariant 1 <= i <= p + 1 && (p > 0 ==> i <= p)
      // the last i - 1 positions hold the largest values, in order
      invariant Between(s0, a[..], p, p - i + 1)
    {
      ghost var before := a[..];
      BubblePass(a, n, i);
      BetweenTrans(s0, before, a[..], p, p - i + 1, p - i + 1);
      PassSettles(s0, a[..], p, p - i + 1);
      i := i + 1;
    }
    SortFinish(s0, a[..], p);
    assert a[..p] == a[..][..p] && old(a[..p]) == s0[..p];
  }
}

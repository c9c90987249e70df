/** Singly linked free lists as `memp.c` keeps them, and what walking along them meets. An element
    is its index, NULL is -1. */
module MempLists {

  const NULL := -1

  /** The element behind x. A link that is no element leads nowhere. */
  function After(next: seq<int>, x: int): (y: int)
  {
    if 0 <= x < |next| then next[x] else NULL
  }

  /** The element k steps behind x; NULL behind the end. */
  function Walk(next: seq<int>, x: int, k: nat): (y: int)
  {
    if k == 0 then x else After(next, Walk(next, x, k - 1))
  }

  /** From x on every link that is followed leads to an element or is NULL. What the links of other
      elements are does not matter. */
  ghost predicate Sound(next: seq<int>, x: int)
  {
    forall k: nat :: NULL <= Walk(next, x, k) < |next|
  }

  /** The list that starts at x ends. */
  ghost predicate Ends(next: seq<int>, x: int)
  {
    exists k: nat :: Walk(next, x, k) == NULL
  }

  lemma {:induction false} WalkOn(next: seq<int>, x: int, a: nat, b: nat)
    ensures Walk(next, x, a + b) == Walk(next, Walk(next, x, a), b)
    decreases b
  {
    if b != 0 {
      WalkOn(next, x, a, b - 1);
    }
  }

  lemma {:induction false} NullStays(next: seq<int>, x: int, a: nat, b: nat)
    requires Walk(next, x, a) == NULL && a <= b
    ensures Walk(next, x, b) == NULL
    decreases b
  {
    if a < b {
      NullStays(next, x, a, b - 1);
    }
  }

  /** Once the walk comes back, it comes back again and again. */
  lemma {:induction false} Period(next: seq<int>, x: int, a: nat, d: nat, times: nat)
    requires Walk(next, x, a) == Walk(next, x, a + d)
    ensures Walk(next, x, a) == Walk(next, x, a + times * d)
    decreases times
  {
    if times == 0 {
      assert a + times * d == a;
    } else {
      Period(next, x, a, d, times - 1);
      WalkOn(next, x, a, d);
      WalkOn(next, x, a + (times - 1) * d, d);
      assert a + (times - 1) * d + d == a + times * d;
    }
  }

  /** A walk that comes back to an element never ends. */
  lemma MeetingIsEndless(next: seq<int>, x: int, a: nat, d: nat)
    requires 0 < d
    requires Walk(next, x, a) == Walk(next, x, a + d) != NULL
    ensures !Ends(next, x)
  {
    forall n: nat
      ensures Walk(next, x, n) != NULL
    {
      if Walk(next, x, n) == NULL {
        Period(next, x, a, d, n);
        Grows(n, d);
        NullStays(next, x, n, a + n * d);
      }
    }
  }

  lemma Grows(n: nat, d: nat)
    requires 0 < d
    ensures n <= n * d
  {
  }

  /** There are no more than n different numbers below n. */
  lemma {:induction false} Distinct(s: seq<int>, n: nat)
    requires forall i :: 0 <= i < |s| ==> 0 <= s[i] < n
    requires forall i, j :: 0 <= i < j < |s| ==> s[i] != s[j]
    ensures |s| <= n
    decreases n
  {
    if s != [] {
      var last, rest := s[|s| - 1], s[..|s| - 1];
      var t := seq(|rest|, i requires 0 <= i < |rest| => if rest[i] == n - 1 then last else rest[i]);
      Distinct(t, n - 1);
    }
  }

  lemma LeadsNowhere(next: seq<int>, x: int, k: nat)
    requires 0 < k && !(0 <= Walk(next, x, k - 1) < |next|)
    ensures Walk(next, x, k) == NULL
  {
  }

  /** Before N + 1 steps a walk over N elements has ended or come back. */
  lemma Repeats(next: seq<int>, x: int) returns (a: nat, d: nat)
    ensures Walk(next, x, a) == NULL || (0 < d && Walk(next, x, a) == Walk(next, x, a + d))
  {
    hide Walk;
    var seen: seq<int> := [];
    a, d := 0, 0;
    while Walk(next, x, a) != NULL
      invariant |seen| == a
      invariant forall i :: 0 <= i < a ==> seen[i] == Walk(next, x, i) && 0 <= seen[i] < |next|
      invariant forall i, j :: 0 <= i < j < a ==> seen[i] != seen[j]
      decreases |next| - a
    {
      var here := Walk(next, x, a);
      if !(0 <= here < |next|) {
        a := a + 1;
        LeadsNowhere(next, x, a);
        return;
      }
      if i :| 0 <= i < a && seen[i] == here {
        a, d := i, a - i;
        return;
      }
      seen := seen + [here];
      a := a + 1;
      Distinct(seen, |next|);
    }
  }

  /** The hare is at step 2k + 1 when the tortoise is at step k: there is a k at which the list has
      ended or they meet. */
  lemma Meeting(next: seq<int>, x: int) returns (k: nat)
    ensures Walk(next, x, k) == NULL || Walk(next, x, k) == Walk(next, x, 2 * k + 1)
  {
    var a, d := Repeats(next, x);
    if Walk(next, x, a) == NULL {
      k := a;
    } else {
      Grows(a + 1, d);
      var laps := (a + 1) * d;
      k := laps - 1;
      WalkOn(next, x, a, k - a);
      Period(next, x, a, d, a + 1);
      WalkOn(next, x, a + laps, k - a);
      assert a + laps + (k - a) == 2 * k + 1;
    }
  }

  // ---------- Lists ----------

  /** The links from head on run through exactly these elements. */
  ghost predicate IsList(next: seq<int>, head: int, list: seq<int>)
    decreases list
  {
    if list == [] then head == NULL
    else head == list[0] && 0 <= head < |next| && IsList(next, next[head], list[1..])
  }

  lemma {:induction false} ListEnds(next: seq<int>, head: int, list: seq<int>)
    requires IsList(next, head, list)
    ensures Walk(next, head, |list|) == NULL
    decreases list
  {
    if list != [] {
      ListEnds(next, next[head], list[1..]);
      assert Walk(next, head, 1) == After(next, Walk(next, head, 0)) == next[head];
      WalkOn(next, head, 1, |list| - 1);
    }
  }

  /** All that is followed along a list are its own links. */
  lemma {:induction false} ListIsSound(next: seq<int>, head: int, list: seq<int>, k: nat)
    requires IsList(next, head, list)
    ensures NULL <= Walk(next, head, k) < |next|
    decreases list
  {
    if list == [] {
      NullStays(next, head, 0, k);
    } else if 0 < k {
      ListIsSound(next, next[head], list[1..], k - 1);
      assert Walk(next, head, 1) == After(next, Walk(next, head, 0)) == next[head];
      WalkOn(next, head, 1, k - 1);
    }
  }

  /** Where no link of any element is wild, every walk is sound. */
  lemma {:induction false} LinkedIsSound(next: seq<int>, x: int, k: nat)
    requires NULL <= x < |next| && forall i :: 0 <= i < |next| ==> NULL <= next[i] < |next|
    ensures NULL <= Walk(next, x, k) < |next|
    decreases k
  {
    if 0 < k {
      LinkedIsSound(next, x, k - 1);
    }
  }

  /** Links of elements that are not on the list do not matter to it. */
  lemma {:induction false} ListKept(next: seq<int>, next': seq<int>, head: int, list: seq<int>)
    requires |next| == |next'| && IsList(next, head, list)
    requires forall x :: x in list && 0 <= x < |next| ==> next'[x] == next[x]
    ensures IsList(next', head, list)
    decreases list
  {
    if list != [] {
      assert list[0] in list;
      ListKept(next, next', next[head], list[1..]);
    }
  }

  lemma {:induction false} ListLink(next: seq<int>, head: int, list: seq<int>, i: nat)
    requires IsList(next, head, list) && i < |list|
    ensures head == list[0] && 0 <= list[i] < |next|
    ensures i + 1 < |list| ==> next[list[i]] == list[i + 1]
    decreases i
  {
    if i == 0 {
      assert 1 < |list| ==> list[1..][0] == list[1];
    } else {
      ListLink(next, next[head], list[1..], i - 1);
    }
  }

  lemma {:induction false} FollowTo(next: seq<int>, head: int, list: seq<int>, x: int, y: int, i: nat)
    requires IsList(next, head, list) && i < |list|
    requires 0 <= x < |next|
    requires forall j :: 0 <= j < i ==> list[j] != x
    ensures Walk(next[x := y], head, i) == list[i]
    decreases i
  {
    if i == 0 {
      ListLink(next, head, list, 0);
    } else {
      FollowTo(next, head, list, x, y, i - 1);
      ListLink(next, head, list, i - 1);
    }
  }

  /** An element can be put in front of a list exactly if it is not on it: otherwise the list goes
      in a circle. */
  lemma PutEnds(next: seq<int>, head: int, list: seq<int>, x: int)
    requires IsList(next, head, list) && 0 <= x < |next|
    ensures Ends(next[x := head], x) <==> x !in list
  {
    var next' := next[x := head];
    if x in list {
      var i := FirstOf(list, x);
      FollowTo(next, head, list, x, head, i);
      assert Walk(next', x, 1) == After(next', Walk(next', x, 0)) == head;
      WalkOn(next', x, 1, i);
      MeetingIsEndless(next', x, 0, i + 1);
    } else {
      ListKept(next, next', head, list);
      assert ([x] + list)[1..] == list;
      ListEnds(next', x, [x] + list);
    }
  }

  ghost function FirstOf(list: seq<int>, x: int): (i: nat)
    requires x in list
    ensures i < |list| && list[i] == x
    ensures forall j :: 0 <= j < i ==> list[j] != x
  {
    if list[0] == x then 0 else 1 + FirstOf(list[1..], x)
  }

  // ---------- Pools ----------

  /** The elements lo, ..., hi - 1, each once. */
  ghost function Elements(lo: nat, hi: nat): (s: multiset<int>)
    requires lo <= hi
    ensures |s| == hi - lo
    decreases hi
  {
    if lo == hi then multiset{} else Elements(lo, hi - 1) + multiset{hi - 1}
  }

  lemma {:induction false} ElementsOnce(lo: nat, hi: nat, x: int)
    requires lo <= hi
    ensures Elements(lo, hi)[x] == if lo <= x < hi then 1 else 0
    decreases hi
  {
    if lo < hi {
      ElementsOnce(lo, hi - 1, x);
    }
  }

  /** A pool of the elements lo, ..., hi - 1: each is either on the free list, once, or handed out. */
  ghost predicate Pool(next: seq<int>, head: int, list: seq<int>, out: set<int>, lo: nat, hi: nat)
  {
    && lo <= hi <= |next|
    && IsList(next, head, list)
    && multiset(list) + multiset(out) == Elements(lo, hi)
  }

  lemma PoolMembers(next: seq<int>, head: int, list: seq<int>, out: set<int>, lo: nat, hi: nat, x: int)
    requires Pool(next, head, list, out, lo, hi)
    ensures lo <= x < hi <==> x in list || x in out
    ensures !(x in list && x in out)
  {
    ElementsOnce(lo, hi, x);
    assert (multiset(list) + multiset(out))[x] == Elements(lo, hi)[x];
  }

  /** Nothing is lost: the free elements and the ones handed out add up to the size of the pool. */
  lemma PoolCounts(next: seq<int>, head: int, list: seq<int>, out: set<int>, lo: nat, hi: nat)
    requires Pool(next, head, list, out, lo, hi)
    ensures |list| + |out| == hi - lo
  {
    assert |multiset(list) + multiset(out)| == |list| + |out|;
  }

  /** `memp_malloc` takes the first element. */
  lemma PoolTake(next: seq<int>, head: int, list: seq<int>, out: set<int>, lo: nat, hi: nat)
    requires Pool(next, head, list, out, lo, hi) && list != []
    ensures 0 <= head < |next| && head !in out
    ensures Pool(next, next[head], list[1..], out + {head}, lo, hi)
  {
    PoolMembers(next, head, list, out, lo, hi, head);
    assert list == [head] + list[1..];
    assert multiset(out + {head}) == multiset(out) + multiset{head};
  }

  /** `memp_free` puts an element in front. Its link may have been overwritten meanwhile. */
  lemma PoolPut(next: seq<int>, head: int, list: seq<int>, out: set<int>, lo: nat, hi: nat, x: int)
    requires Pool(next, head, list, out, lo, hi) && x in out
    ensures 0 <= x < |next|
    ensures Pool(next[x := head], x, [x] + list, out - {x}, lo, hi)
  {
    PoolMembers(next, head, list, out, lo, hi, x);
    var next' := next[x := head];
    ListKept(next, next', head, list);
    assert ([x] + list)[1..] == list;
    assert multiset(out) == multiset(out - {x}) + multiset{x};
    assert multiset([x] + list) == multiset{x} + multiset(list);
  }

  /** Overwriting an element that is not on the free list does not touch the pool. */
  lemma PoolKept(next: seq<int>, head: int, list: seq<int>, out: set<int>, lo: nat, hi: nat, x: int, y: int)
    requires Pool(next, head, list, out, lo, hi)
    requires 0 <= x < |next| && x !in list
    ensures Pool(next[x := y], head, list, out, lo, hi)
  {
    ListKept(next, next[x := y], head, list);
  }

  /** So does anything that leaves the elements of the pool alone. */
  lemma PoolSame(next: seq<int>, next': seq<int>, head: int, list: seq<int>, out: set<int>, lo: nat, hi: nat)
    requires Pool(next, head, list, out, lo, hi) && |next'| == |next|
    requires forall x :: lo <= x < hi ==> next'[x] == next[x]
    ensures Pool(next', head, list, out, lo, hi)
  {
    forall x | x in list && 0 <= x < |next|
      ensures next'[x] == next[x]
    {
      PoolMembers(next, head, list, out, lo, hi, x);
    }
    ListKept(next, next', head, list);
  }

  lemma EmptyPool(next: seq<int>, lo: nat)
    requires lo <= |next|
    ensures Pool(next, NULL, [], {}, lo, lo)
  {
    var none: seq<int> := [];
    assert multiset(none) == multiset{};
  }

  /** One step of `memp_init`: the next element goes in front of the list. */
  lemma PoolGrows(next: seq<int>, head: int, list: seq<int>, lo: nat, hi: nat)
    requires Pool(next, head, list, {}, lo, hi) && hi < |next|
    ensures Pool(next[hi := head], hi, [hi] + list, {}, lo, hi + 1)
  {
    PoolMembers(next, head, list, {}, lo, hi, hi);
    ListKept(next, next[hi := head], head, list);
    assert ([hi] + list)[1..] == list;
    assert multiset([hi] + list) == multiset{hi} + multiset(list);
  }
}

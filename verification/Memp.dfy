/** `memp.c`: pools of equal elements, each pool a free list threaded through its own elements. The
    link of an element is part of the element, so whoever holds the element may overwrite it. */
module Memp {
  import opened MempLists

  /** The first element of pool i when the pools are carved out one after the other. */
  function Base(num: seq<nat>, i: nat): (b: nat)
    requires i <= |num|
  {
    if i == 0 then 0 else Base(num, i - 1) + num[i - 1]
  }

  lemma {:induction false} BaseGrows(num: seq<nat>, i: nat, j: nat)
    requires i <= j <= |num|
    ensures Base(num, i) <= Base(num, j)
    decreases j
  {
    if i < j {
      BaseGrows(num, i, j - 1);
    }
  }

  /** All pools, as a predicate on values. */
  ghost predicate Pools(num: seq<nat>, next: seq<int>, tab: seq<int>, free: seq<seq<int>>, out: seq<set<int>>)
  {
    && |tab| == |free| == |out| == |num|
    && |next| == Base(num, |num|)
    && forall i :: 0 <= i < |num| ==> PoolAt(num, next, tab[i], free[i], out[i], i)
  }

  ghost predicate PoolAt(num: seq<nat>, next: seq<int>, head: int, list: seq<int>, out: set<int>, i: nat)
    requires i < |num|
  {
    Pool(next, head, list, out, Base(num, i), Base(num, i + 1))
  }

  /** An element of one pool is neither free nor handed out in another. */
  lemma Apart(num: seq<nat>, next: seq<int>, tab: seq<int>, free: seq<seq<int>>, out: seq<set<int>>, i: nat, j: nat, x: int)
    requires Pools(num, next, tab, free, out) && i < |num| && j < |num| && i != j
    requires x in free[i] || x in out[i]
    ensures x !in free[j] && x !in out[j]
  {
    PoolMembers(next, tab[i], free[i], out[i], Base(num, i), Base(num, i + 1), x);
    PoolMembers(next, tab[j], free[j], out[j], Base(num, j), Base(num, j + 1), x);
    if i < j {
      BaseGrows(num, i + 1, j);
    } else {
      BaseGrows(num, j + 1, i);
    }
  }

  /** Taking an element from pool i. */
  lemma TakeKeeps(num: seq<nat>, next: seq<int>, tab: seq<int>, free: seq<seq<int>>, out: seq<set<int>>, i: nat)
    requires Pools(num, next, tab, free, out) && i < |num| && free[i] != []
    ensures 0 <= tab[i] < |next| && tab[i] == free[i][0]
    ensures forall j :: 0 <= j < |num| ==> tab[i] !in out[j]
    ensures Pools(num, next, tab[i := next[tab[i]]], free[i := free[i][1..]], out[i := out[i] + {tab[i]}])
  {
    assert PoolAt(num, next, tab[i], free[i], out[i], i);
    PoolTake(next, tab[i], free[i], out[i], Base(num, i), Base(num, i + 1));
    forall j | 0 <= j < |num|
      ensures tab[i] !in out[j]
    {
      if j != i {
        Apart(num, next, tab, free, out, i, j, tab[i]);
      }
    }
  }

  /** Overwriting the link of an element that somebody holds. */
  lemma OverwriteKeeps(num: seq<nat>, next: seq<int>, tab: seq<int>, free: seq<seq<int>>, out: seq<set<int>>, i: nat, x: int, y: int)
    requires Pools(num, next, tab, free, out) && i < |num| && x in out[i]
    ensures 0 <= x < |next|
    ensures Pools(num, next[x := y], tab, free, out)
  {
    PoolMembers(next, tab[i], free[i], out[i], Base(num, i), Base(num, i + 1), x);
    forall j | 0 <= j < |num|
      ensures PoolAt(num, next[x := y], tab[j], free[j], out[j], j)
    {
      if j != i {
        Apart(num, next, tab, free, out, i, j, x);
      }
      PoolKept(next, tab[j], free[j], out[j], Base(num, j), Base(num, j + 1), x, y);
    }
  }

  /** Putting an element back into pool i. */
  lemma PutKeeps(num: seq<nat>, next: seq<int>, tab: seq<int>, free: seq<seq<int>>, out: seq<set<int>>, i: nat, x: int)
    requires Pools(num, next, tab, free, out) && i < |num| && x in out[i]
    ensures 0 <= x < |next|
    ensures Pools(num, next[x := tab[i]], tab[i := x], free[i := [x] + free[i]], out[i := out[i] - {x}])
  {
    OverwriteKeeps(num, next, tab, free, out, i, x, tab[i]);
    assert PoolAt(num, next, tab[i], free[i], out[i], i);
    PoolPut(next, tab[i], free[i], out[i], Base(num, i), Base(num, i + 1), x);
  }

  /** No element is lost and no list goes in a circle. */
  lemma PoolsAreSound(num: seq<nat>, next: seq<int>, tab: seq<int>, free: seq<seq<int>>, out: seq<set<int>>, i: nat)
    requires Pools(num, next, tab, free, out) && i < |num|
    ensures |free[i]| + |out[i]| == num[i]
    ensures Sound(next, tab[i]) && Ends(next, tab[i])
  {
    assert PoolAt(num, next, tab[i], free[i], out[i], i);
    PoolCounts(next, tab[i], free[i], out[i], Base(num, i), Base(num, i + 1));
    ListEnds(next, tab[i], free[i]);
    forall k: nat
      ensures NULL <= Walk(next, tab[i], k) < |next|
    {
      ListIsSound(next, tab[i], free[i], k);
    }
  }

  /** The first i pools have been carved out, and nothing of them is in use. */
  ghost predicate Carved(num: seq<nat>, next: seq<int>, tab: seq<int>, free: seq<seq<int>>, i: nat)
    requires i <= |num| == |tab|
  {
    && |free| == i
    && Base(num, i) <= |next|
    && forall j :: 0 <= j < i ==> PoolAt(num, next, tab[j], free[j], {}, j)
  }

  lemma CarvedMore(num: seq<nat>, next: seq<int>, next': seq<int>, tab: seq<int>, head: int, free: seq<seq<int>>, list: seq<int>, i: nat)
    requires i < |num| == |tab| && Carved(num, next, tab, free, i)
    requires |next'| == |next| && Base(num, i) + num[i] <= |next|
    requires forall x :: 0 <= x < Base(num, i) ==> next'[x] == next[x]
    requires Pool(next', head, list, {}, Base(num, i), Base(num, i) + num[i])
    ensures Carved(num, next', tab[i := head], free + [list], i + 1)
  {
    hide Pool;
    var tab', free' := tab[i := head], free + [list];
    forall j | 0 <= j < i + 1
      ensures PoolAt(num, next', tab'[j], free'[j], {}, j)
    {
      if j < i {
        assert PoolAt(num, next, tab[j], free[j], {}, j);
        BaseGrows(num, j + 1, i);
        PoolSame(next, next', tab[j], free[j], {}, Base(num, j), Base(num, j + 1));
      }
    }
    hide PoolAt;
    assert Base(num, i + 1) == Base(num, i) + num[i];
  }

  lemma CarvedAll(num: seq<nat>, next: seq<int>, tab: seq<int>, free: seq<seq<int>>, out: seq<set<int>>)
    requires |num| == |tab| == |out| && Carved(num, next, tab, free, |num|) && |next| == Base(num, |num|)
    requires forall j :: 0 <= j < |num| ==> out[j] == {}
    ensures Pools(num, next, tab, free, out)
  {
  }

  class Memory {
    const num: seq<nat>
    const next: array<int>
    const tab: array<int>
    var used: seq<nat>
    var err: seq<nat>
    ghost var free: seq<seq<int>>
    ghost var out: seq<set<int>>

    ghost predicate Valid()
      reads this, next, tab
    {
      && next != tab
      && Pools(num, next[..], tab[..], free, out)
      && |used| == |err| == |num|
      && forall i :: 0 <= i < |num| ==> used[i] == |out[i]|
    }

    /** One pool of `memp_init`: the elements from `lo` on are put in front of the list in turn. */
    method Carve(pool: nat, lo: nat, ghost tabs: seq<int>) returns (ghost list: seq<int>)
      requires pool < |num| == tab.Length && lo + num[pool] <= next.Length && next != tab
      requires tab[..] == tabs
      modifies next, tab
      ensures Pool(next[..], tab[pool], list, {}, lo, lo + num[pool])
      ensures tab[..] == tabs[pool := tab[pool]]
      ensures forall x :: 0 <= x < next.Length && !(lo <= x < lo + num[pool]) ==> next[x] == old(next[x])
    {
      hide Elements;
      tab[pool] := NULL;
      list := [];
      assert Pool(next[..], NULL, [], {}, lo, lo) by { EmptyPool(next[..], lo); }
      var memp := lo;
      while memp < lo + num[pool]
        invariant lo <= memp <= lo + num[pool]
        invariant Pool(next[..], tab[pool], list, {}, lo, memp)
        invariant tab[..] == tabs[pool := tab[pool]]
        invariant forall x :: 0 <= x < next.Length && !(lo <= x < memp) ==> next[x] == old(next[x])
      {
        PoolGrows(next[..], tab[pool], list, lo, memp);
        ghost var next' := next[..][memp := tab[pool]];
        next[memp] := tab[pool];
        tab[pool] := memp;
        assert next[..] == next';
        list := [memp] + list;
        memp := memp + 1;
      }
    }

    /** `memp_init`: every element is free. */
    constructor (num: seq<nat>)
      ensures Valid() && this.num == num && fresh(next) && fresh(tab)
      ensures forall i :: 0 <= i < |num| ==> out[i] == {}
    {
      this.num := num;
      next := new int[Base(num, |num|)];
      tab := new int[|num|];
      used := seq(|num|, i => 0);
      err := seq(|num|, i => 0);
      out := seq(|num|, i => {});
      free := [];
      new;
      var memp := 0;
      for i := 0 to |num|
        invariant memp == Base(num, i)
        invariant Carved(num, next[..], tab[..], free, i)
        invariant |out| == |used| == |err| == |num|
        invariant forall j :: 0 <= j < |num| ==> out[j] == {} && used[j] == 0
      {
        hide Carved, Pool;
        BaseGrows(num, i + 1, |num|);
        ghost var links, tabs := next[..], tab[..];
        ghost var list := Carve(i, memp, tabs);
        assert forall x :: 0 <= x < memp ==> next[..][x] == links[x];
        CarvedMore(num, links, next[..], tabs, tab[i], free, list, i);
        memp := memp + num[i];
        free := free + [list];
      }
      CarvedAll(num, next[..], tab[..], free, out);
    }

    /** The inner loop of `memp_sanity` on one list: the tortoise and the hare. */
    method NoCircle(head: int) returns (ok: bool)
      requires Sound(next[..], head)
      ensures ok <==> Ends(next[..], head)
    {
      ghost var links := next[..];
      ghost var last := Meeting(links, head);
      assert NULL <= Walk(links, head, 0) < next.Length;
      if head == NULL {
        return true;
      }
      var t, h := head, next[head];
      ghost var k: nat := 0;
      assert Walk(links, head, 1) == After(links, Walk(links, head, 0));
      assert NULL <= Walk(links, head, 1) < next.Length;
      while t != NULL && h != NULL
        invariant k <= last
        invariant t == Walk(links, head, k) && h == Walk(links, head, 2 * k + 1)
        invariant NULL <= t < next.Length && NULL <= h < next.Length
        decreases last - k
      {
        if t == h {
          MeetingIsEndless(links, head, k, k + 1);
          return false;
        }
        assert Walk(links, head, k + 1) == next[t];
        assert Walk(links, head, 2 * k + 2) == next[h];
        assert Walk(links, head, 2 * k + 3) == After(links, next[h]);
        t := next[t];
        h := if next[h] != NULL && next[next[h]] != NULL then next[next[h]] else NULL;
        k := k + 1;
      }
      return true;
    }

    /** `memp_sanity`, on any links whatever as long as none that it follows is wild: it comes to an
        end, and finds every circle. */
    method Sanity() returns (ok: bool)
      requires forall i :: 0 <= i < tab.Length ==> Sound(next[..], tab[i])
      ensures ok <==> forall i :: 0 <= i < tab.Length ==> Ends(next[..], tab[i])
    {
      for i := 0 to tab.Length
        invariant forall j :: 0 <= j < i ==> Ends(next[..], tab[j])
      {
        var fine := NoCircle(tab[i]);
        if !fine {
          return false;
        }
      }
      return true;
    }

    /** `memp_malloc`: an element that nobody holds, or NULL if there is none. */
    method Malloc(pool: nat) returns (x: int)
      requires Valid()
      modifies this, tab
      ensures Valid()
      ensures x == NULL <==> |num| <= pool || old(free[pool]) == []
      ensures x == NULL ==> free == old(free) && out == old(out)
      ensures x == NULL ==> err == if pool < |num| then old(err)[pool := old(err[pool]) + 1] else old(err)
      ensures x != NULL ==> && x == old(free[pool][0])
                            && free == old(free)[pool := old(free[pool])[1..]]
                            && out == old(out)[pool := old(out[pool]) + {x}]
                            && forall j :: 0 <= j < |num| ==> x !in old(out[j])
    {
      if |num| <= pool {
        return NULL;
      }
      assert PoolAt(num, next[..], tab[pool], free[pool], out[pool], pool);
      x := tab[pool];
      if x != NULL {
        TakeKeeps(num, next[..], tab[..], free, out, pool);
        ghost var tab' := tab[..][pool := next[x]];
        tab[pool] := next[x];
        assert tab[..] == tab';
        used := used[pool := used[pool] + 1];
        free := free[pool := free[pool][1..]];
        out := out[pool := out[pool] + {x}];
      } else {
        err := err[pool := err[pool] + 1];
      }
    }

    /** `memp_free` of NULL, or of an element that was handed out by this pool. What it asserts at
        the end, that no list goes in a circle, holds. */
    method Free(pool: nat, x: int) returns (sane: bool)
      requires Valid() && pool < |num| && (x == NULL || x in out[pool])
      modifies this, next, tab
      ensures Valid() && sane
      ensures x == NULL ==> free == old(free) && out == old(out)
      ensures x != NULL ==> && free == old(free)[pool := [x] + old(free[pool])]
                            && out == old(out)[pool := old(out[pool]) - {x}]
    {
      if x == NULL {
        return true;
      }
      PutKeeps(num, next[..], tab[..], free, out, pool, x);
      used := used[pool := used[pool] - 1];
      ghost var next', tab' := next[..][x := tab[pool]], tab[..][pool := x];
      next[x] := tab[pool];
      tab[pool] := x;
      assert next[..] == next' && tab[..] == tab';
      free := free[pool := [x] + free[pool]];
      out := out[pool := out[pool] - {x}];
      forall i | 0 <= i < |num|
        ensures Sound(next[..], tab[i]) && Ends(next[..], tab[i])
      {
        PoolsAreSound(num, next[..], tab[..], free, out, i);
      }
      hide Pools;
      sane := Sanity();
    }

    /** The holder of an element writes to it, whatever it likes. */
    method Write(pool: nat, x: int, y: int)
      requires Valid() && pool < |num| && x in out[pool]
      modifies next
      ensures Valid()
    {
      OverwriteKeeps(num, next[..], tab[..], free, out, pool, x, y);
      ghost var next' := next[..][x := y];
      next[x] := y;
      assert next[..] == next';
    }
  }
}

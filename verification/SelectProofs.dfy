/** The invariant of the select protocol, and what follows from it. */
module SelectProofs {
  import opened Common
  import opened Select

  // ---------- The doubly linked list ----------

  function First(order: seq<nat>, otherwise: Option<nat>): (r: Option<nat>)
  {
    if order == [] then otherwise else Some(order[0])
  }

  function Last(order: seq<nat>, otherwise: Option<nat>): (r: Option<nat>)
  {
    if order == [] then otherwise else Some(order[|order| - 1])
  }

  /** The blocks of order are chained in both directions, between `before` and `after`. */
  predicate Linked(next: map<nat, Option<nat>>, prev: map<nat, Option<nat>>, order: seq<nat>,
                   before: Option<nat>, after: Option<nat>)
  {
    order == []
    || (&& order[0] in next && next[order[0]] == First(order[1..], after)
        && order[0] in prev && prev[order[0]] == before
        && Linked(next, prev, order[1..], Some(order[0]), after))
  }

  predicate Distinct(order: seq<nat>)
  {
    order == [] || (order[0] !in order[1..] && Distinct(order[1..]))
  }

  lemma {:induction false} LinkedJoin(next: map<nat, Option<nat>>, prev: map<nat, Option<nat>>,
                                      a: seq<nat>, b: seq<nat>, before: Option<nat>, after: Option<nat>)
    ensures Linked(next, prev, a + b, before, after)
            <==> Linked(next, prev, a, before, First(b, after)) && Linked(next, prev, b, Last(a, before), after)
  {
    if a == [] {
      assert a + b == b;
    } else {
      LinkedJoin(next, prev, a[1..], b, Some(a[0]), after);
      assert (a + b)[1..] == a[1..] + b;
    }
  }

  lemma LinkedOne(next: map<nat, Option<nat>>, prev: map<nat, Option<nat>>, t: nat,
                  before: Option<nat>, after: Option<nat>)
    requires Linked(next, prev, [t], before, after)
    ensures t in next && next[t] == after
    ensures t in prev && prev[t] == before
  {
    assert [t][1..] == [];
  }

  /** Pointers of other blocks do not matter. */
  lemma {:induction false} LinkedFrame(next: map<nat, Option<nat>>, prev: map<nat, Option<nat>>,
                                       next': map<nat, Option<nat>>, prev': map<nat, Option<nat>>,
                                       order: seq<nat>, before: Option<nat>, after: Option<nat>)
    requires Linked(next, prev, order, before, after)
    requires forall t :: t in order && t in next ==> t in next' && next'[t] == next[t]
    requires forall t :: t in order && t in prev ==> t in prev' && prev'[t] == prev[t]
    ensures Linked(next', prev', order, before, after)
  {
    if order != [] {
      LinkedFrame(next, prev, next', prev', order[1..], Some(order[0]), after);
    }
  }

  lemma {:induction false} LinkedHas(next: map<nat, Option<nat>>, prev: map<nat, Option<nat>>,
                                     order: seq<nat>, before: Option<nat>, after: Option<nat>, t: nat)
    requires Linked(next, prev, order, before, after) && t in order
    ensures t in next && t in prev
  {
    if t != order[0] {
      LinkedHas(next, prev, order[1..], Some(order[0]), after, t);
    }
  }

  /** Relinking the front and the back of a piece. */
  lemma LinkedPrev(next: map<nat, Option<nat>>, prev: map<nat, Option<nat>>, order: seq<nat>,
                   before: Option<nat>, after: Option<nat>, before': Option<nat>)
    requires Linked(next, prev, order, before, after) && Distinct(order)
    ensures Linked(next, if order == [] then prev else prev[order[0] := before'], order, before', after)
  {
    if order != [] {
      LinkedFrame(next, prev, next, prev[order[0] := before'], order[1..], Some(order[0]), after);
    }
  }

  lemma {:induction false} LinkedNext(next: map<nat, Option<nat>>, prev: map<nat, Option<nat>>, order: seq<nat>,
                                      before: Option<nat>, after: Option<nat>, after': Option<nat>)
    requires Linked(next, prev, order, before, after) && Distinct(order) && order != []
    ensures Linked(next[order[|order| - 1] := after'], prev, order, before, after')
  {
    if |order| == 1 {
      assert order[1..] == [];
    } else {
      assert order[|order| - 1] in order[1..];
      LinkedNext(next, prev, order[1..], Some(order[0]), after, after');
    }
  }

  lemma {:induction false} DistinctJoin(a: seq<nat>, b: seq<nat>)
    requires Distinct(a + b)
    ensures Distinct(a) && Distinct(b)
    ensures forall t :: t in a ==> t !in b
  {
    if a == [] {
      assert a + b == b;
    } else {
      assert (a + b)[1..] == a[1..] + b;
      DistinctJoin(a[1..], b);
      assert forall t :: t in a ==> t == a[0] || t in a[1..];
    }
  }

  /** A list taken apart at one of its blocks. */
  lemma {:induction false} SplitAt(order: seq<nat>, t: nat) returns (pre: seq<nat>, post: seq<nat>)
    requires t in order
    ensures order == pre + [t] + post && t !in pre
    ensures Without(order, t) == pre + post
  {
    if order[0] == t {
      pre, post := [], order[1..];
    } else {
      pre, post := SplitAt(order[1..], t);
      pre := [order[0]] + pre;
    }
  }

  lemma DistinctWithout(order: seq<nat>, t: nat)
    requires Distinct(order) && t in order
    ensures Distinct(Without(order, t))
    ensures forall u :: u in Without(order, t) <==> u in order && u != t
  {
    if order[0] != t {
      DistinctWithout(order[1..], t);
    }
  }

  /** Pushing a new block keeps the list. */
  lemma PushKeepsList(st: State, t: nat)
    requires st.head == First(st.order, None) && Linked(st.next, st.prev, st.order, None, None)
    requires Distinct(st.order) && t !in st.order
    ensures var r := Push(st, t);
            r.head == First(r.order, None) && Linked(r.next, r.prev, r.order, None, None) && Distinct(r.order)
  {
    var r := Push(st, t);
    LinkedPrev(st.next, st.prev, st.order, None, None, Some(t));
    var prev' := if st.order == [] then st.prev else st.prev[st.order[0] := Some(t)];
    LinkedFrame(st.next, prev', r.next, r.prev, st.order, Some(t), None);
    assert r.order[1..] == st.order;
  }

  /** Taking a block out keeps the list, wherever the block is. */
  lemma RemoveKeepsList(st: State, t: nat)
    requires st.head == First(st.order, None) && Linked(st.next, st.prev, st.order, None, None)
    requires Distinct(st.order) && t in st.order
    ensures t in st.next && t in st.prev
    ensures var r := Remove(st, t);
            r.head == First(r.order, None) && Linked(r.next, r.prev, r.order, None, None) && Distinct(r.order)
  {
    LinkedHas(st.next, st.prev, st.order, None, None, t);
    var pre, post := SplitAt(st.order, t);
    RemoveRelinks(st, t, pre, post);
    DistinctWithout(st.order, t);
  }

  lemma RemoveRelinks(st: State, t: nat, pre: seq<nat>, post: seq<nat>)
    requires st.head == First(st.order, None) && Linked(st.next, st.prev, st.order, None, None)
    requires Distinct(st.order) && st.order == pre + [t] + post && Without(st.order, t) == pre + post
    requires t in st.next && t in st.prev
    ensures var r := Remove(st, t);
            r.head == First(r.order, None) && Linked(r.next, r.prev, r.order, None, None)
  {
    hide Linked, Distinct;
    var r := Remove(st, t);
    var next, prev := st.next, st.prev;
    DistinctJoin(pre + [t], post);
    DistinctJoin(pre, [t]);
    LinkedJoin(next, prev, pre + [t], post, None, None);
    LinkedJoin(next, prev, pre, [t], None, First(post, None));
    LinkedOne(next, prev, t, Last(pre, None), First(post, None));
    assert st.head == Some(t) <==> pre == [] by {
      assert pre != [] ==> pre[0] in pre && st.order[0] == pre[0];
    }
    LinkedPrev(next, prev, post, Some(t), None, Last(pre, None));
    LinkedFrame(next, r.prev, r.next, r.prev, post, Last(pre, None), None);
    if pre != [] {
      assert forall u :: u in pre ==> u in pre + [t];
      assert post != [] ==> post[0] in post;
      LinkedNext(next, prev, pre, None, Some(t), First(post, None));
      LinkedFrame(r.next, prev, r.next, r.prev, pre, None, First(post, None));
    }
    LinkedJoin(r.next, r.prev, pre, post, None, None);
  }

  // ---------- The invariant ----------

  ghost predicate ListInv(st: State)
  {
    && st.head == First(st.order, None)
    && Linked(st.next, st.prev, st.order, None, None)
    && Distinct(st.order)
    && (forall t :: t in st.order <==> t in st.selects && OnList(st.selects[t].pc))
  }

  /** The call has raised `select_waiting` of socket s and not lowered it again. */
  predicate Counted(sel: Selector, s: nat)
  {
    && Watched(sel, s)
    && match sel.pc
       case Count(i) => s < i
       case Scan2(_) => true
       case Sleep => true
       case Uncount(i) => i <= s
       case _ => false
  }

  function Counters(st: State, s: nat): (r: set<nat>)
  {
    set t | t in st.selects && Counted(st.selects[t], s)
  }

  ghost predicate CountInv(st: State)
  {
    forall s :: 0 <= s < |st.socks| ==> st.socks[s].waiting == |Counters(st, s)|
  }

  predicate SelectorOk(sel: Selector, sockets: nat)
  {
    && sel.maxfdp1 <= sockets
    && sel.signals == (if sel.signalled then 1 else 0)
    && sel.sem <= sel.signals
    && (sel.pc.Scan1? || sel.pc.Register? ==> !sel.signalled)
    && (sel.pc.Count? || sel.pc.Scan2? || sel.pc.Sleep? ==> sel.sem == sel.signals)
  }

  ghost predicate SelectorInv(st: State)
  {
    forall t :: t in st.selects ==> SelectorOk(st.selects[t], |st.socks|)
  }

  predicate WalkerOk(st: State, walker: Walker)
  {
    && walker.s < |st.socks|
    && walker.seen <= st.ctr
    && (walker.seen == st.ctr ==> walker.at in st.order)
  }

  ghost predicate WalkerInv(st: State)
  {
    forall w :: w in st.walkers ==> WalkerOk(st, st.walkers[w])
  }

  /** The block of t comes behind the block of a. */
  predicate Follows(order: seq<nat>, a: nat, t: nat)
  {
    order != [] && (if order[0] == a then t in order[1..] else Follows(order[1..], a, t))
  }

  /** A select call that went past socket s in its second scan without finding anything, or
      sleeps, that was not signalled, and that watches for an event which is now set. */
  predicate Owed(st: State, t: nat, s: nat)
  {
    && t in st.selects && s < |st.socks|
    && var sel := st.selects[t];
       && (sel.pc.Sleep? || (sel.pc.Scan2? && sel.nready == 0 && s < sel.pc.i))
       && Watched(sel, s)
       && !sel.signalled
       && Ready(sel, s, st.socks[s])
  }

  /** Callback w will still come by the block of t on behalf of socket s. */
  predicate Coming(st: State, w: nat, t: nat, s: nat)
  {
    && w in st.walkers && st.walkers[w].s == s
    && (st.walkers[w].seen != st.ctr || Follows(st.order, st.walkers[w].at, t))
  }

  ghost predicate OwedInv(st: State)
  {
    forall t, s :: Owed(st, t, s) ==> exists w :: Coming(st, w, t, s)
  }

  ghost predicate Inv(st: State)
  {
    ListInv(st) && CountInv(st) && SelectorInv(st) && WalkerInv(st) && OwedInv(st)
  }

  // ---------- Memory safety ----------

  lemma OrderIsListed(st: State, t: nat)
    requires ListInv(st) && t in st.order
    ensures Listed(st, t)
  {
    LinkedHas(st.next, st.prev, st.order, None, None, t);
  }

  lemma HeadIsListed(st: State)
    requires ListInv(st)
    ensures ListedOrNull(st, st.head)
  {
    if st.head.Some? {
      assert st.order[0] in st.order;
      OrderIsListed(st, st.head.value);
    }
  }

  /** The neighbours of a block on the list are on the list. */
  lemma NeighboursAreListed(st: State, t: nat)
    requires ListInv(st) && t in st.order
    ensures Listed(st, t) && ListedOrNull(st, st.next[t]) && ListedOrNull(st, st.prev[t])
  {
    OrderIsListed(st, t);
    NextIsOnList(st.next, st.prev, st.order, None, t);
    PrevIsOnList(st.next, st.prev, st.order, None, None, t);
    if st.next[t].Some? {
      OrderIsListed(st, st.next[t].value);
    }
    if st.prev[t].Some? {
      OrderIsListed(st, st.prev[t].value);
    }
  }

  /** No step follows a pointer to a control block that has left the list: the walk of a callback, in
      particular, only goes on from the block it remembered if that block is still on the list. */
  lemma StepsAreSafe(st: State, step: Step)
    requires Inv(st) && Enabled(st, step)
    ensures Safe(st, step)
  {
    HeadIsListed(st);
    match step
    case Advance(t) =>
      if st.selects[t].pc == Unlink {
        NeighboursAreListed(st, t);
      }
    case Walk(w) =>
      var walker := st.walkers[w];
      if walker.seen == st.ctr {
        NeighboursAreListed(st, walker.at);
      }
    case _ =>
  }

  lemma {:induction false} PrevIsOnList(next: map<nat, Option<nat>>, prev: map<nat, Option<nat>>,
                                        order: seq<nat>, before: Option<nat>, after: Option<nat>, at: nat)
    requires Linked(next, prev, order, before, after) && at in order
    ensures at in prev && (prev[at] == before || (prev[at].Some? && prev[at].value in order))
  {
    if at != order[0] {
      PrevIsOnList(next, prev, order[1..], Some(order[0]), after, at);
    }
  }

  lemma {:induction false} NextIsOnList(next: map<nat, Option<nat>>, prev: map<nat, Option<nat>>,
                                        order: seq<nat>, before: Option<nat>, at: nat)
    requires Linked(next, prev, order, before, None) && at in order
    ensures at in next && (next[at].Some? ==> next[at].value in order)
  {
    if at != order[0] {
      NextIsOnList(next, prev, order[1..], Some(order[0]), at);
    }
  }

  /** Going on behind the block of `at` meets the block of t next, or still has it ahead. */
  lemma {:induction false} NextTowards(next: map<nat, Option<nat>>, prev: map<nat, Option<nat>>,
                                       order: seq<nat>, before: Option<nat>, at: nat, t: nat)
    requires Linked(next, prev, order, before, None) && Distinct(order)
    requires at in order && Follows(order, at, t)
    ensures at in next && next[at].Some?
    ensures next[at].value == t || Follows(order, next[at].value, t)
  {
    if at == order[0] {
      if order[1] != t {
        assert order[1..][0] == order[1];
      }
    } else {
      NextTowards(next, prev, order[1..], Some(order[0]), at, t);
      NextIsOnList(next, prev, order[1..], Some(order[0]), at);
    }
  }

  // ---------- Steps of a select call ----------

  /** A step that only changes the call of t, and neither its place on the list, nor what it
      counts, nor adds to what it is owed. */
  lemma PrivateStep(st: State, t: nat, sel: Selector)
    requires Inv(st)
    requires SelectorOk(sel, |st.socks|)
    requires OnList(sel.pc) == (t in st.selects && OnList(st.selects[t].pc))
    requires forall s :: 0 <= s < |st.socks| ==> Counted(sel, s) == (t in st.selects && Counted(st.selects[t], s))
    requires forall s :: Owed(SetSelector(st, t, sel), t, s) ==> Owed(st, t, s)
    ensures Inv(SetSelector(st, t, sel))
  {
    var r := SetSelector(st, t, sel);
    assert CountInv(r) by {
      forall s | 0 <= s < |r.socks|
        ensures Counters(r, s) == Counters(st, s)
      {
      }
    }
    assert OwedInv(r) by {
      forall u, s | Owed(r, u, s)
        ensures exists w :: Coming(r, w, u, s)
      {
        assert Owed(st, u, s);
        var w :| Coming(st, w, u, s);
        assert Coming(r, w, u, s);
      }
    }
  }

  /** A step of the first or the last scan: the call is not on the list and is owed nothing. */
  lemma UnregisteredStep(st: State, t: nat, sel: Selector)
    requires Inv(st) && t in st.selects
    requires st.selects[t].pc.Scan1? || st.selects[t].pc.Scan3?
    requires sel.pc.Scan1? || sel.pc.Scan3? || sel.pc.Register? || sel.pc.Returned?
    requires SelectorOk(sel, |st.socks|)
    ensures Inv(SetSelector(st, t, sel))
  {
    hide ListInv, CountInv, WalkerInv, OwedInv, SelectorInv;
    PrivateStep(st, t, sel);
  }

  /** A second scan does not pass a ready socket without counting it. */
  lemma Scan2Step(st: State, t: nat)
    requires Inv(st) && t in st.selects && st.selects[t].pc.Scan2?
    ensures Inv(AdvanceSelect(st, t))
  {
    hide ListInv, CountInv, WalkerInv, OwedInv;
    var sel := st.selects[t];
    var i := sel.pc.i;
    assert SelectorOk(sel, |st.socks|);
    if i < sel.maxfdp1 {
      var sel' := sel.(pc := Scan2(i + 1), nready := sel.nready + Hits(sel, i, st.socks[i]));
      assert Ready(sel, i, st.socks[i]) ==> 0 < Hits(sel, i, st.socks[i]);
      PrivateStep(st, t, sel');
    } else if sel.nready == 0 {
      PrivateStep(st, t, sel.(pc := Sleep));
    } else {
      PrivateStep(st, t, sel.(pc := Uncount(0)));
    }
  }

  lemma ScanStep(st: State, t: nat)
    requires Inv(st) && t in st.selects && (st.selects[t].pc.Scan1? || st.selects[t].pc.Scan3?)
    ensures Inv(AdvanceSelect(st, t))
  {
    hide ListInv, CountInv, WalkerInv, OwedInv, Counted, Owed;
    var sel := st.selects[t];
    var i := sel.pc.i;
    assert SelectorOk(sel, |st.socks|);
    if i < sel.maxfdp1 {
      var nready := sel.nready + Hits(sel, i, st.socks[i]);
      UnregisteredStep(st, t, sel.(pc := if sel.pc.Scan1? then Scan1(i + 1) else Scan3(i + 1), nready := nready));
    } else {
      UnregisteredStep(st, t, sel.(pc := Returned));
      UnregisteredStep(st, t, sel.(pc := if sel.pc.Scan1? then Register else Returned));
    }
  }

  lemma RegisterStep(st: State, t: nat)
    requires Inv(st) && t in st.selects && st.selects[t].pc.Register?
    ensures Inv(AdvanceSelect(st, t))
  {
    var sel := st.selects[t].(pc := Count(0), signalled := false, sem := 0);
    var r := AdvanceSelect(st, t);
    assert ListInv(r) by { PushKeepsList(st, t); }
    assert CountInv(r) by {
      forall s | 0 <= s < |r.socks|
        ensures Counters(r, s) == Counters(st, s)
      {
      }
    }
    ListChangeKeepsOwed(st, r, t);
  }

  /** When the list changes, every callback in flight starts over. */
  lemma ListChangeKeepsOwed(st: State, r: State, t: nat)
    requires WalkerInv(st) && OwedInv(st)
    requires r.socks == st.socks && r.walkers == st.walkers && r.ctr == st.ctr + 1
    requires t in r.selects && r.selects == st.selects[t := r.selects[t]]
    requires !r.selects[t].pc.Sleep? && !r.selects[t].pc.Scan2?
    ensures WalkerInv(r) && OwedInv(r)
  {
    forall u, s | Owed(r, u, s)
      ensures exists w :: Coming(r, w, u, s)
    {
      assert Owed(st, u, s);
      var w :| Coming(st, w, u, s);
      assert Coming(r, w, u, s);
    }
  }

  lemma UnlinkStep(st: State, t: nat)
    requires Inv(st) && t in st.selects && st.selects[t].pc.Unlink?
    ensures t in st.next && t in st.prev
    ensures Inv(AdvanceSelect(st, t))
  {
    RemoveKeepsList(st, t);
    DistinctWithout(st.order, t);
    var r := AdvanceSelect(st, t);
    assert CountInv(r) by {
      forall s | 0 <= s < |r.socks|
        ensures Counters(r, s) == Counters(st, s)
      {
      }
    }
    ListChangeKeepsOwed(st, r, t);
  }

  /** `select_waiting` of socket i follows the set of calls that count it. */
  lemma CountingKeepsCount(st: State, t: nat, sel: Selector, i: nat, delta: int)
    requires CountInv(st) && t in st.selects && i < |st.socks|
    requires forall s :: 0 <= s < |st.socks| && s != i ==> Counted(sel, s) == Counted(st.selects[t], s)
    requires delta == (if Counted(sel, i) then 1 else 0) - (if Counted(st.selects[t], i) then 1 else 0)
    ensures CountInv(SetSelector(SetWaiting(st, i, delta), t, sel))
  {
    var r := SetSelector(SetWaiting(st, i, delta), t, sel);
    forall s | 0 <= s < |r.socks|
      ensures r.socks[s].waiting == |Counters(r, s)|
    {
      if s != i || delta == 0 {
        assert Counters(r, s) == Counters(st, s);
      } else if delta == 1 {
        assert Counters(r, s) == Counters(st, s) + {t};
      } else {
        assert Counters(st, s) == Counters(r, s) + {t};
      }
    }
  }

  /** A step that moves the call of t past socket i in one of the counting loops. */
  lemma CountingStep(st: State, t: nat, sel: Selector, i: nat, delta: int)
    requires Inv(st) && t in st.selects && i < |st.socks|
    requires SelectorOk(sel, |st.socks|)
    requires OnList(sel.pc) && OnList(st.selects[t].pc) && !sel.pc.Sleep? && !sel.pc.Scan2?
    requires forall s :: 0 <= s < |st.socks| && s != i ==> Counted(sel, s) == Counted(st.selects[t], s)
    requires delta == (if Counted(sel, i) then 1 else 0) - (if Counted(st.selects[t], i) then 1 else 0)
    ensures Inv(SetSelector(SetWaiting(st, i, delta), t, sel))
  {
    var r := SetSelector(SetWaiting(st, i, delta), t, sel);
    CountingKeepsCount(st, t, sel, i, delta);
    hide CountInv;
    forall u, s | Owed(r, u, s)
      ensures exists w :: Coming(r, w, u, s)
    {
      assert Owed(st, u, s);
      var w :| Coming(st, w, u, s);
      assert Coming(r, w, u, s);
    }
  }

  lemma CountStep(st: State, t: nat)
    requires Inv(st) && t in st.selects && (st.selects[t].pc.Count? || st.selects[t].pc.Uncount?)
    ensures Inv(AdvanceSelect(st, t))
  {
    hide ListInv, CountInv, WalkerInv, OwedInv;
    var sel := st.selects[t];
    var i := sel.pc.i;
    assert SelectorOk(sel, |st.socks|);
    var sel' := AdvanceSelect(st, t).selects[t];
    if i < sel.maxfdp1 && Watched(sel, i) {
      CountingStep(st, t, sel', i, if sel.pc.Count? then 1 else -1);
    } else {
      PrivateStep(st, t, sel');
    }
  }

  // ---------- Steps of an event callback ----------

  /** Signalling the block of t settles what t is owed and changes nothing else. */
  lemma SignalKeeps(st: State, t: nat, s: nat)
    requires ListInv(st) && CountInv(st) && SelectorInv(st) && WalkerInv(st)
    requires t in st.order && s < |st.socks|
    ensures t in st.selects
    ensures var r := Signal(st, t, s);
            && ListInv(r) && CountInv(r) && SelectorInv(r) && WalkerInv(r)
            && !Owed(r, t, s)
            && r.socks == st.socks && r.order == st.order && r.ctr == st.ctr && r.walkers == st.walkers
            && forall u, s' :: Owed(r, u, s') ==> Owed(st, u, s')
  {
    var r := Signal(st, t, s);
    forall s' | 0 <= s' < |r.socks|
      ensures Counters(r, s') == Counters(st, s')
    {
    }
  }

  /** A select call is owed a visit that the walk of callback w can make good when it goes on at
      `at`: some other callback is coming, or this one is. */
  ghost predicate Covered(st: State, w: nat, s: nat, at: Option<nat>, t: nat, s': nat)
  {
    || (exists w' :: w' != w && Coming(st, w', t, s'))
    || (s' == s && at.Some? && (at.value == t || Follows(st.order, at.value, t)))
  }

  lemma VisitKeeps(st: State, w: nat, s: nat, at: Option<nat>)
    requires ListInv(st) && CountInv(st) && SelectorInv(st) && WalkerInv(st)
    requires s < |st.socks| && (at.Some? ==> at.value in st.order)
    requires forall t, s' :: Owed(st, t, s') ==> Covered(st, w, s, at, t, s')
    ensures at.Some? ==> at.value in st.selects
    ensures Inv(Visit(st, w, s, at))
  {
    var r := Visit(st, w, s, at);
    if at.None? {
      assert CountInv(r) by { assert forall s' :: Counters(r, s') == Counters(st, s'); }
    } else {
      SignalKeeps(st, at.value, s);
      var st' := Signal(st, at.value, s);
      assert CountInv(r) by { assert forall s' :: Counters(r, s') == Counters(st', s'); }
    }
    forall t, s' | Owed(r, t, s')
      ensures exists w' :: Coming(r, w', t, s')
    {
      assert Owed(st, t, s');
      if w' :| w' != w && Coming(st, w', t, s') {
        assert Coming(r, w', t, s');
      } else {
        assert Coming(r, w, t, s');
      }
    }
  }

  /** Only the event itself changes what calls are owed for socket s, and a call that is owed
      anything is counted in `select_waiting`. */
  lemma EventOwes(st: State, s: nat, event: Event, t: nat, s': nat)
    requires Inv(st) && s < |st.socks|
    requires Owed(st.(socks := st.socks[s := SetEvent(st.socks[s], event)]), t, s')
    ensures s' != s ==> Owed(st, t, s')
    ensures s' == s ==> st.socks[s].waiting != 0 && t in st.order
  {
    if s' == s {
      assert t in Counters(st, s);
      assert OnList(st.selects[t].pc);
    }
  }

  lemma EventKeeps(st: State, s: nat, event: Event)
    requires Inv(st) && s < |st.socks|
    ensures var r := st.(socks := st.socks[s := SetEvent(st.socks[s], event)]);
            ListInv(r) && CountInv(r) && SelectorInv(r) && WalkerInv(r)
  {
    var r := st.(socks := st.socks[s := SetEvent(st.socks[s], event)]);
    forall s' | 0 <= s' < |r.socks|
      ensures Counters(r, s') == Counters(st, s')
    {
    }
  }

  lemma CallbackStep(st: State, w: nat, s: nat, event: Event)
    requires Inv(st) && w !in st.walkers && s < |st.socks|
    ensures st.head.Some? ==> st.head.value in st.selects
    ensures Inv(StartCallback(st, w, s, event))
  {
    var st' := st.(socks := st.socks[s := SetEvent(st.socks[s], event)]);
    EventKeeps(st, s, event);
    forall t, s' | Owed(st', t, s')
      ensures Covered(st', w, s, st.head, t, s')
      ensures st.socks[s].waiting == 0 ==> exists w' :: Coming(st', w', t, s')
    {
      EventOwes(st, s, event, t, s');
      if s' != s {
        var w' :| Coming(st, w', t, s');
        assert Coming(st', w', t, s');
      }
    }
    if st.socks[s].waiting != 0 {
      VisitKeeps(st', w, s, st.head);
    }
  }

  lemma WalkStep(st: State, w: nat)
    requires Inv(st) && w in st.walkers && Safe(st, Walk(w))
    ensures Inv(Visit(st, w, st.walkers[w].s, NextStop(st, st.walkers[w])))
  {
    var walker := st.walkers[w];
    var at := NextStop(st, walker);
    if walker.seen == st.ctr {
      NextIsOnList(st.next, st.prev, st.order, None, walker.at);
    }
    forall t, s' | Owed(st, t, s')
      ensures Covered(st, w, walker.s, at, t, s')
    {
      var w' :| Coming(st, w', t, s');
      if w' == w {
        assert t in st.order by { assert OnList(st.selects[t].pc); }
        if walker.seen == st.ctr {
          NextTowards(st.next, st.prev, st.order, None, walker.at, t);
        }
      }
    }
    VisitKeeps(st, w, walker.s, at);
  }

  // ---------- Every run ----------

  lemma InitialInv(st: State)
    requires Initial(st)
    ensures Inv(st)
  {
    forall s | 0 <= s < |st.socks|
      ensures Counters(st, s) == {}
    {
    }
  }

  lemma LastDataStep(st: State, s: nat, left: bool)
    requires Inv(st) && s < |st.socks|
    ensures Inv(st.(socks := st.socks[s := st.socks[s].(lastdata := left)]))
  {
    var r := st.(socks := st.socks[s := st.socks[s].(lastdata := left)]);
    forall s' | 0 <= s' < |r.socks|
      ensures Counters(r, s') == Counters(st, s')
    {
    }
    forall u, s' | Owed(r, u, s')
      ensures exists w :: Coming(r, w, u, s')
    {
      assert Owed(st, u, s');
      var w :| Coming(st, w, u, s');
      assert Coming(r, w, u, s');
    }
  }

  /** Every step keeps the invariant. */
  lemma StepKeepsInv(st: State, step: Step)
    requires Inv(st) && Enabled(st, step) && Safe(st, step)
    ensures Inv(Take(st, step))
  {
    match step
    case Call(t, maxfdp1, readset, writeset, exceptset, poll) =>
      PrivateStep(st, t, Take(st, step).selects[t]);
    case Advance(t) =>
      match st.selects[t].pc {
        case Register => RegisterStep(st, t);
        case Count(_) => CountStep(st, t);
        case Uncount(_) => CountStep(st, t);
        case Unlink => UnlinkStep(st, t);
        case Scan2(_) => Scan2Step(st, t);
        case _ => ScanStep(st, t);
      }
    case Wake(t) => PrivateStep(st, t, Take(st, step).selects[t]);
    case Timeout(t) => PrivateStep(st, t, Take(st, step).selects[t]);
    case Callback(w, s, event) => CallbackStep(st, w, s, event);
    case Walk(w) => WalkStep(st, w);
    case LastData(s, left) => LastDataStep(st, s, left);
  }

  /** The states of a run: each one results from the one before it by an enabled step. A step that is
      not safe might lead to any state whatever. */
  ghost predicate IsRun(states: seq<State>, steps: seq<Step>)
  {
    && |states| == |steps| + 1
    && Initial(states[0])
    && forall i :: 0 <= i < |steps| ==> Leads(states[i], steps[i], states[i + 1])
  }

  ghost predicate Leads(st: State, step: Step, st': State)
  {
    Enabled(st, step) && (Safe(st, step) ==> st' == Take(st, step))
  }

  lemma {:induction false} RunKeepsInv(states: seq<State>, steps: seq<Step>, n: nat)
    requires IsRun(states, steps) && n < |states|
    ensures Inv(states[n])
  {
    if n == 0 {
      InitialInv(states[0]);
    } else {
      RunKeepsInv(states, steps, n - 1);
      assert Leads(states[n - 1], steps[n - 1], states[n - 1 + 1]);
      StepsAreSafe(states[n - 1], steps[n - 1]);
      StepKeepsInv(states[n - 1], steps[n - 1]);
    }
  }

  /** In every state of every run, whatever step comes next: no pointer to a control block that has
      left the list is followed. */
  lemma RunsAreSafe(states: seq<State>, steps: seq<Step>, n: nat, step: Step)
    requires IsRun(states, steps) && n < |states| && Enabled(states[n], step)
    ensures Safe(states[n], step)
  {
    RunKeepsInv(states, steps, n);
    StepsAreSafe(states[n], step);
  }

  ghost predicate NoneUnderWay(st: State, s: nat)
  {
    forall w :: w in st.walkers ==> st.walkers[w].s != s
  }

  /** No lost wakeup. In every state of every run: while a select call sleeps unsignalled and an
      event it watches for is set, a callback for that very socket is under way and will come by
      its control block; once no callback for the socket is under way, the call was signalled.
      A call that was signalled can wake up, and no call is ever signalled twice. */
  lemma NoLostWakeup(states: seq<State>, steps: seq<Step>, n: nat, t: nat, s: nat)
    requires IsRun(states, steps) && n < |states|
    requires t in states[n].selects && Watched(states[n].selects[t], s)
    ensures var st, sel := states[n], states[n].selects[t];
            && s < |st.socks|
            && sel.signals <= 1
            && (sel.pc.Sleep? && sel.signalled ==> Enabled(st, Wake(t)))
            && (sel.pc.Sleep? && !sel.signalled && Ready(sel, s, st.socks[s]) ==> exists w :: Coming(st, w, t, s))
            && (sel.pc.Sleep? && Ready(sel, s, st.socks[s]) && NoneUnderWay(st, s) ==> sel.signalled)
  {
    RunKeepsInv(states, steps, n);
    assert Owed(states[n], t, s) ==> exists w :: Coming(states[n], w, t, s);
  }

  /** In every state of every run the list is doubly linked in the order of its blocks, which
      are those of the calls that registered and did not unlink. */
  lemma ListIsWellFormed(states: seq<State>, steps: seq<Step>, n: nat, t: nat)
    requires IsRun(states, steps) && n < |states|
    ensures var st := states[n];
            && st.head == First(st.order, None)
            && Linked(st.next, st.prev, st.order, None, None)
            && Distinct(st.order)
            && (t in st.order <==> t in st.selects && OnList(st.selects[t].pc))
  {
    RunKeepsInv(states, steps, n);
  }

  /** How many blocks come behind the block of `at`. */
  function Behind(order: seq<nat>, at: nat): (n: nat)
  {
    if order == [] then 0
    else if order[0] == at then |order| - 1
    else Behind(order[1..], at)
  }

  lemma {:induction false} NextIsNearer(next: map<nat, Option<nat>>, prev: map<nat, Option<nat>>,
                                        order: seq<nat>, before: Option<nat>, at: nat)
    requires Linked(next, prev, order, before, None) && Distinct(order) && at in order
    requires at in next && next[at].Some?
    ensures Behind(order, next[at].value) < Behind(order, at)
  {
    if at == order[0] {
      assert order[1..][0] == order[1];
    } else {
      NextIsNearer(next, prev, order[1..], Some(order[0]), at);
      NextIsOnList(next, prev, order[1..], Some(order[0]), at);
    }
  }

  /** The walk of a callback does not go on for ever: as long as the list does not change, each
      step ends it or brings it nearer to the end of the list. */
  lemma WalkMakesProgress(st: State, w: nat)
    requires Inv(st) && w in st.walkers
    ensures Safe(st, Walk(w))
    ensures var r := Take(st, Walk(w));
            w in r.walkers
            ==> r.walkers[w].seen == r.ctr
                && (st.walkers[w].seen == st.ctr
                    ==> Behind(r.order, r.walkers[w].at) < Behind(st.order, st.walkers[w].at))
  {
    StepsAreSafe(st, Walk(w));
    var walker := st.walkers[w];
    if walker.seen == st.ctr && st.next[walker.at].Some? {
      NextIsNearer(st.next, st.prev, st.order, None, walker.at);
    }
  }

  // ---------- How soon ----------

  /** How many steps the walk of w can take before it ends, as long as the list does not change. */
  function StepsAhead(st: State, w: nat): (n: nat)
    requires w in st.walkers
  {
    if st.walkers[w].seen == st.ctr then Behind(st.order, st.walkers[w].at) else |st.order|
  }

  /** Call t sleeps and its event on socket s is set. */
  predicate Awaited(st: State, t: nat, s: nat)
  {
    && t in st.selects && s < |st.socks|
    && st.selects[t].pc.Sleep?
    && Ready(st.selects[t], s, st.socks[s])
  }

  lemma {:induction false} FollowsHasBehind(order: seq<nat>, at: nat, t: nat)
    requires Follows(order, at, t)
    ensures 0 < Behind(order, at)
  {
    if order[0] != at {
      FollowsHasBehind(order[1..], at, t);
    }
  }

  lemma ComingIsAhead(st: State, w: nat, t: nat, s: nat)
    requires Inv(st) && Awaited(st, t, s) && Coming(st, w, t, s)
    ensures 0 < StepsAhead(st, w)
  {
    assert t in st.order;
    if st.walkers[w].seen == st.ctr {
      FollowsHasBehind(st.order, st.walkers[w].at, t);
    }
  }

  /** A step of the coming walk signals the call, or the walk is still coming and nearer. */
  lemma WalkComesNearer(st: State, w: nat, t: nat, s: nat)
    requires Inv(st) && Awaited(st, t, s) && Coming(st, w, t, s) && Safe(st, Walk(w))
    ensures var r := Take(st, Walk(w));
            && t in r.selects
            && (r.selects[t].signalled || (Coming(r, w, t, s) && StepsAhead(r, w) < StepsAhead(st, w)))
  {
    var walker := st.walkers[w];
    assert t in st.order;
    if walker.seen == st.ctr {
      NextTowards(st.next, st.prev, st.order, None, walker.at, t);
      NextIsNearer(st.next, st.prev, st.order, None, walker.at);
    } else {
      assert st.order == [st.order[0]] + st.order[1..];
    }
  }

  lemma AdvanceStandsBy(st: State, u: nat, t: nat)
    requires Enabled(st, Advance(u)) && Safe(st, Advance(u)) && t != u
    ensures var r := AdvanceSelect(st, u);
            && r.walkers == st.walkers && (r.ctr == st.ctr ==> r.order == st.order)
            && (t in st.selects ==> t in r.selects && r.selects[t] == st.selects[t])
  {
    ListStepsStandBy(st, u);
    hide Push, Remove, Hits, Watched, ListedOrNull;
    var sel := st.selects[u];
    match sel.pc
    case Register =>
      assert AdvanceSelect(st, u).ctr == st.ctr + 1;
    case Unlink =>
      assert AdvanceSelect(st, u).ctr == st.ctr + 1;
    case _ =>
  }

  lemma ListStepsStandBy(st: State, u: nat)
    ensures Push(st, u).walkers == st.walkers && Push(st, u).selects == st.selects && Push(st, u).ctr == st.ctr + 1
    ensures u in st.next && u in st.prev ==>
              Remove(st, u).walkers == st.walkers && Remove(st, u).selects == st.selects && Remove(st, u).ctr == st.ctr + 1
  {
  }

  lemma VisitStandsBy(st: State, w: nat, s: nat, at: Option<nat>, v: nat, t: nat)
    requires s < |st.socks| && (at.Some? ==> at.value in st.selects)
    requires v != w && t in st.selects
    ensures var r := Visit(st, w, s, at);
            && r.ctr == st.ctr && r.order == st.order
            && (v in st.walkers ==> v in r.walkers && r.walkers[v] == st.walkers[v])
            && t in r.selects && (st.selects[t].signalled ==> r.selects[t].signalled)
  {
  }

  /** Any other step that leaves the list alone leaves the walk and the list as they are, and takes
      no signal back. */
  lemma OtherStepsStandBy(st: State, step: Step, w: nat, t: nat)
    requires Enabled(st, step) && Safe(st, step) && step != Walk(w)
    requires t in st.selects && st.selects[t].pc.Sleep?
    ensures var r := Take(st, step);
            && (w in st.walkers ==> w in r.walkers && r.walkers[w] == st.walkers[w])
            && (r.ctr == st.ctr ==> r.order == st.order)
            && t in r.selects && (st.selects[t].signalled ==> r.selects[t].signalled)
  {
    hide AdvanceSelect, Visit;
    match step
    case Advance(u) => AdvanceStandsBy(st, u, t);
    case Callback(v, s, event) =>
      if st.socks[s].waiting != 0 && v != w {
        VisitStandsBy(st.(socks := st.socks[s := SetEvent(st.socks[s], event)]), v, s, st.head, w, t);
      } else if st.socks[s].waiting != 0 {
        VisitStandsBy(st.(socks := st.socks[s := SetEvent(st.socks[s], event)]), v, s, st.head, w + 1, t);
      }
    case Walk(v) => VisitStandsBy(st, v, st.walkers[v].s, NextStop(st, st.walkers[v]), w, t);
    case _ =>
  }

  /** The steps of callback w among these. */
  function Walks(steps: seq<Step>, w: nat): (n: nat)
  {
    if steps == [] then 0
    else Walks(steps[..|steps| - 1], w) + if steps[|steps| - 1] == Walk(w) then 1 else 0
  }

  lemma NoWalks(steps: seq<Step>, n: nat, w: nat)
    requires n <= |steps|
    ensures Walks(steps[n..n], w) == 0
  {
  }

  lemma WalksMore(steps: seq<Step>, n: nat, m: nat, w: nat)
    requires n < m <= |steps|
    ensures Walks(steps[n..m], w) == Walks(steps[n..m - 1], w) + if steps[m - 1] == Walk(w) then 1 else 0
  {
    var piece := steps[n..m];
    assert piece[..|piece| - 1] == steps[n..m - 1];
    assert piece[|piece| - 1] == steps[m - 1];
  }

  /** Call t has been signalled, or callback w comes by its block within so many steps. */
  predicate Nearing(st: State, w: nat, t: nat, s: nat, left: int)
  {
    && t in st.selects
    && (st.selects[t].signalled || (Coming(st, w, t, s) && StepsAhead(st, w) <= left))
  }

  /** One step of a run in which the list stays as it is and call t goes on sleeping. */
  lemma StepTowardsSignal(st: State, step: Step, r: State, w: nat, t: nat, s: nat, left: int)
    requires Inv(st) && Leads(st, step, r) && r.ctr == st.ctr
    requires Awaited(st, t, s) && Awaited(r, t, s) && Nearing(st, w, t, s, left)
    ensures Nearing(r, w, t, s, left - if step == Walk(w) then 1 else 0)
  {
    StepsAreSafe(st, step);
    if st.selects[t].signalled {
      OtherStepsStandBy(st, step, if step.Walk? then step.w + 1 else 0, t);
    } else if step == Walk(w) {
      WalkComesNearer(st, w, t, s);
    } else {
      OtherStepsStandBy(st, step, w, t);
    }
  }

  /** The list stays as it is, and call t sleeps with its event set. */
  ghost predicate Calm(states: seq<State>, n: nat, m: nat, t: nat, s: nat)
    requires n <= m < |states|
  {
    forall i :: n <= i <= m ==> Awaited(states[i], t, s) && states[i].ctr == states[n].ctr
  }

  lemma CalmStep(states: seq<State>, steps: seq<Step>, n: nat, m: nat, t: nat, s: nat)
    requires IsRun(states, steps) && n < m <= |steps| && Calm(states, n, m, t, s)
    ensures m < |states|
    ensures Inv(states[m - 1]) && Leads(states[m - 1], steps[m - 1], states[m]) && Calm(states, n, m - 1, t, s)
    ensures Awaited(states[m - 1], t, s) && Awaited(states[m], t, s) && states[m - 1].ctr == states[m].ctr
  {
    hide Inv, Leads, Awaited;
    RunKeepsInv(states, steps, m - 1);
    assert Leads(states[m - 1], steps[m - 1], states[m - 1 + 1]);
  }

  lemma {:induction false} RunTowardsSignal(states: seq<State>, steps: seq<Step>, n: nat, m: nat, w: nat, t: nat, s: nat, left: int)
    requires IsRun(states, steps) && n <= m <= |steps|
    requires Calm(states, n, m, t, s) && Nearing(states[n], w, t, s, left)
    ensures Nearing(states[m], w, t, s, left - Walks(steps[n..m], w))
    decreases m
  {
    hide *;
    if m == n {
      NoWalks(steps, n, w);
    } else {
      CalmStep(states, steps, n, m, t, s);
      RunTowardsSignal(states, steps, n, m - 1, w, t, s, left);
      OneStepOn(states, steps, n, m, w, t, s, left);
    }
  }

  lemma OneStepOn(states: seq<State>, steps: seq<Step>, n: nat, m: nat, w: nat, t: nat, s: nat, left: int)
    requires IsRun(states, steps) && n < m <= |steps| && Calm(states, n, m, t, s)
    requires Nearing(states[m - 1], w, t, s, left - Walks(steps[n..m - 1], w))
    ensures Nearing(states[m], w, t, s, left - Walks(steps[n..m], w))
  {
    hide *;
    CalmStep(states, steps, n, m, t, s);
    WalksMore(steps, n, m, w);
    StepTowardsSignal(states[m - 1], steps[m - 1], states[m], w, t, s, left - Walks(steps[n..m - 1], w));
  }

  /** In any run, however the steps of all others fall in between: while the list does not change, a
      call whose event stays set is signalled after at most as many steps of the coming callback as
      there are blocks ahead of it. */
  lemma SignalledInTime(states: seq<State>, steps: seq<Step>, n: nat, m: nat, w: nat, t: nat, s: nat)
    requires IsRun(states, steps) && n <= m < |states|
    requires Calm(states, n, m, t, s) && Coming(states[n], w, t, s)
    requires StepsAhead(states[n], w) <= Walks(steps[n..m], w)
    ensures t in states[m].selects && states[m].selects[t].signalled
  {
    assert Awaited(states[n], t, s) && Awaited(states[m], t, s);
    RunTowardsSignal(states, steps, n, m, w, t, s, StepsAhead(states[n], w));
    RunKeepsInv(states, steps, m);
    hide Inv, StepsAhead;
    if !states[m].selects[t].signalled {
      ComingIsAhead(states[m], w, t, s);
    }
  }
}

/** `lwip_select` and `event_callback`: any number of select calls and event callbacks, one
    protected section at a time. */
module Select {
  import opened Common

  // ---------- State ----------

  /** The event state of a socket, and how many select calls count it as watched. */
  datatype Sock = Sock(rcvevent: int, lastdata: bool, sendevent: bool, errevent: bool, waiting: int)

  /** Where a select call stands. A scan or counting loop is at socket i. */
  datatype Pc =
    | Scan1(i: nat)
    | Register
    | Count(i: nat)
    | Scan2(i: nat)
    | Sleep
    | Uncount(i: nat)
    | Unlink
    | Scan3(i: nat)
    | Returned

  /** A select call with its control block: the sets, whether the timeout is zero, the result
      so far, `sem_signalled`, and the semaphore. `signals` counts the signals it was given. */
  datatype Selector = Selector(
    pc: Pc, maxfdp1: nat, readset: set<nat>, writeset: set<nat>, exceptset: set<nat>, poll: bool,
    nready: nat, timedOut: bool, signalled: bool, sem: nat, signals: nat)

  /** An event callback for socket s that visited the control block `at` and remembered the
      list counter before it gave up the protection. */
  datatype Walker = Walker(s: nat, at: nat, seen: nat)

  /** `select_cb_list` is a doubly linked list over the control blocks, with `next` and `prev`
      held in maps. The field `order` lists the blocks from the head on; no step reads it. */
  datatype State = State(
    socks: seq<Sock>, head: Option<nat>, next: map<nat, Option<nat>>, prev: map<nat, Option<nat>>,
    ctr: nat, selects: map<nat, Selector>, walkers: map<nat, Walker>, order: seq<nat>)

  datatype Event = RcvPlus | RcvMinus | SendPlus | SendMinus | Error

  datatype Step =
    | Call(t: nat, maxfdp1: nat, readset: set<nat>, writeset: set<nat>, exceptset: set<nat>, poll: bool)
    | Advance(t: nat)
    | Wake(t: nat)
    | Timeout(t: nat)
    | Callback(w: nat, s: nat, event: Event)
    | Walk(w: nat)
    | LastData(s: nat, left: bool)

  // ---------- lwip_select ----------

  predicate Watched(sel: Selector, i: nat)
  {
    i < sel.maxfdp1 && (i in sel.readset || i in sel.writeset || i in sel.exceptset)
  }

  /** How many of its conditions on socket i `lwip_selscan` finds met. */
  function Hits(sel: Selector, i: nat, sock: Sock): (n: nat)
  {
    (if i in sel.readset && (sock.lastdata || 0 < sock.rcvevent) then 1 else 0)
    + (if i in sel.writeset && sock.sendevent then 1 else 0)
    + (if i in sel.exceptset && sock.errevent then 1 else 0)
  }

  /** Put the control block of t on top of the list. */
  function Push(st: State, t: nat): (r: State)
  {
    st.(next := st.next[t := st.head],
        prev := (if st.head.Some? then st.prev[st.head.value := Some(t)] else st.prev)[t := None],
        head := Some(t),
        ctr := st.ctr + 1,
        order := [t] + st.order)
  }

  /** Take the control block of t off the list. */
  function Remove(st: State, t: nat): (r: State)
    requires t in st.next && t in st.prev
  {
    var after, before := st.next[t], st.prev[t];
    st.(prev := if after.Some? then st.prev[after.value := before] else st.prev,
        head := if st.head == Some(t) then after else st.head,
        next := if st.head != Some(t) && before.Some? then st.next[before.value := after] else st.next,
        ctr := st.ctr + 1,
        order := Without(st.order, t))
  }

  function Without(order: seq<nat>, t: nat): (r: seq<nat>)
  {
    if order == [] then []
    else if order[0] == t then order[1..]
    else [order[0]] + Without(order[1..], t)
  }

  function SetSelector(st: State, t: nat, sel: Selector): (r: State)
  {
    st.(selects := st.selects[t := sel])
  }

  function SetWaiting(st: State, i: nat, delta: int): (r: State)
    requires i < |st.socks|
  {
    st.(socks := st.socks[i := st.socks[i].(waiting := st.socks[i].waiting + delta)])
  }

  /** The next protected section of a select call that is not asleep. */
  function AdvanceSelect(st: State, t: nat): (r: State)
    requires t in st.selects && st.selects[t].maxfdp1 <= |st.socks|
    requires st.selects[t].pc == Unlink ==> t in st.next && t in st.prev
  {
    var sel := st.selects[t];
    match sel.pc
    case Scan1(i) =>
      if i < sel.maxfdp1 then
        SetSelector(st, t, sel.(pc := Scan1(i + 1), nready := sel.nready + Hits(sel, i, st.socks[i])))
      else if sel.nready != 0 || sel.poll then SetSelector(st, t, sel.(pc := Returned))
      else SetSelector(st, t, sel.(pc := Register))
    case Register =>
      SetSelector(Push(st, t), t, sel.(pc := Count(0), signalled := false, sem := 0))
    case Count(i) =>
      if i < sel.maxfdp1 then
        var st' := if Watched(sel, i) then SetWaiting(st, i, 1) else st;
        SetSelector(st', t, sel.(pc := Count(i + 1)))
      else SetSelector(st, t, sel.(pc := Scan2(0), nready := 0))
    case Scan2(i) =>
      if i < sel.maxfdp1 then
        SetSelector(st, t, sel.(pc := Scan2(i + 1), nready := sel.nready + Hits(sel, i, st.socks[i])))
      else if sel.nready == 0 then SetSelector(st, t, sel.(pc := Sleep))
      else SetSelector(st, t, sel.(pc := Uncount(0)))
    case Uncount(i) =>
      if i < sel.maxfdp1 then
        var st' := if Watched(sel, i) then SetWaiting(st, i, -1) else st;
        SetSelector(st', t, sel.(pc := Uncount(i + 1)))
      else SetSelector(st, t, sel.(pc := Unlink))
    case Unlink =>
      SetSelector(Remove(st, t), t, if sel.timedOut then sel.(pc := Returned) else sel.(pc := Scan3(0), nready := 0))
    case Scan3(i) =>
      if i < sel.maxfdp1 then
        SetSelector(st, t, sel.(pc := Scan3(i + 1), nready := sel.nready + Hits(sel, i, st.socks[i])))
      else SetSelector(st, t, sel.(pc := Returned))
    case _ => st
  }

  // ---------- event_callback ----------

  function SetEvent(sock: Sock, event: Event): (r: Sock)
  {
    match event
    case RcvPlus => sock.(rcvevent := sock.rcvevent + 1)
    case RcvMinus => sock.(rcvevent := sock.rcvevent - 1)
    case SendPlus => sock.(sendevent := true)
    case SendMinus => sock.(sendevent := false)
    case Error => sock.(errevent := true)
  }

  /** An event flag of socket s that the select call watches for is set. */
  predicate Ready(sel: Selector, s: nat, sock: Sock)
  {
    || (0 < sock.rcvevent && s in sel.readset)
    || (sock.sendevent && s in sel.writeset)
    || (sock.errevent && s in sel.exceptset)
  }

  /** Look at the control block of t on behalf of socket s, and signal it if need be. */
  function Signal(st: State, t: nat, s: nat): (r: State)
    requires t in st.selects && s < |st.socks|
  {
    var sel := st.selects[t];
    if !sel.signalled && Ready(sel, s, st.socks[s]) then
      SetSelector(st, t, sel.(signalled := true, sem := sel.sem + 1, signals := sel.signals + 1))
    else st
  }

  /** Go on with the walk of callback w at `at`, which is the end of the list or a block. */
  function Visit(st: State, w: nat, s: nat, at: Option<nat>): (r: State)
    requires s < |st.socks|
    requires at.Some? ==> at.value in st.selects
  {
    if at.None? then st.(walkers := st.walkers - {w})
    else
      var st' := Signal(st, at.value, s);
      st'.(walkers := st'.walkers[w := Walker(s, at.value, st'.ctr)])
  }

  /** Where the walk goes on after a window: behind the block it is at, or, when the list was
      changed, at the head again. */
  function NextStop(st: State, walker: Walker): (at: Option<nat>)
    requires walker.seen == st.ctr ==> walker.at in st.next
  {
    if walker.seen != st.ctr then st.head else st.next[walker.at]
  }

  function StartCallback(st: State, w: nat, s: nat, event: Event): (r: State)
    requires s < |st.socks|
    requires st.head.Some? ==> st.head.value in st.selects
  {
    var st' := st.(socks := st.socks[s := SetEvent(st.socks[s], event)]);
    if st.socks[s].waiting == 0 then st' else Visit(st', w, s, st.head)
  }

  // ---------- Steps ----------

  /** The step can be taken. The pointers that it follows have to be valid. */
  predicate Enabled(st: State, step: Step)
  {
    match step
    case Call(t, maxfdp1, _, _, _, _) => t !in st.selects && maxfdp1 <= |st.socks|
    case Advance(t) => t in st.selects && st.selects[t].pc != Sleep && st.selects[t].pc != Returned
    case Wake(t) => t in st.selects && st.selects[t].pc == Sleep && 0 < st.selects[t].sem
    case Timeout(t) => t in st.selects && st.selects[t].pc == Sleep
    case Callback(w, s, _) => w !in st.walkers && s < |st.socks|
    case Walk(w) => w in st.walkers
    case LastData(s, _) => s < |st.socks|
  }

  /** From Register to Unlink the control block of a call is on the list. */
  predicate OnList(pc: Pc)
  {
    pc.Count? || pc.Scan2? || pc.Sleep? || pc.Uncount? || pc.Unlink?
  }

  /** The control block of t is on the list. It lives on the stack of its call, so behind any other
      pointer there may be anything. */
  predicate Listed(st: State, t: nat)
  {
    && t in st.selects && OnList(st.selects[t].pc)
    && t in st.next && t in st.prev
  }

  predicate ListedOrNull(st: State, p: Option<nat>)
  {
    p.Some? ==> Listed(st, p.value)
  }

  /** Every control block that the step reads or writes through a pointer is on the list. */
  predicate Safe(st: State, step: Step)
    requires Enabled(st, step)
  {
    match step
    case Advance(t) =>
      && st.selects[t].maxfdp1 <= |st.socks|
      && (st.selects[t].pc == Register ==> ListedOrNull(st, st.head))
      && (st.selects[t].pc == Unlink ==>
            Listed(st, t) && ListedOrNull(st, st.next[t]) && ListedOrNull(st, st.prev[t]))
    case Callback(w, s, _) => ListedOrNull(st, st.head)
    case Walk(w) =>
      var walker := st.walkers[w];
      && walker.s < |st.socks|
      && (walker.seen == st.ctr ==> Listed(st, walker.at))
      && ListedOrNull(st, NextStop(st, walker))
    case _ => true
  }

  function Take(st: State, step: Step): (r: State)
    requires Enabled(st, step) && Safe(st, step)
  {
    match step
    case Call(t, maxfdp1, readset, writeset, exceptset, poll) =>
      SetSelector(st, t, Selector(Scan1(0), maxfdp1, readset, writeset, exceptset, poll, 0, false, false, 0, 0))
    case Advance(t) => AdvanceSelect(st, t)
    case Wake(t) =>
      SetSelector(st, t, st.selects[t].(pc := Uncount(0), sem := st.selects[t].sem - 1))
    case Timeout(t) =>
      SetSelector(st, t, st.selects[t].(pc := Uncount(0), timedOut := true))
    case Callback(w, s, event) => StartCallback(st, w, s, event)
    case Walk(w) => Visit(st, w, st.walkers[w].s, NextStop(st, st.walkers[w]))
    case LastData(s, left) => st.(socks := st.socks[s := st.socks[s].(lastdata := left)])
  }

  ghost predicate Initial(st: State)
  {
    && (forall s :: 0 <= s < |st.socks| ==> st.socks[s].waiting == 0)
    && st.head == None && st.order == []
    && st.selects == map[] && st.walkers == map[]
  }
}

/** Receive events that arrive while `lwip_accept` is still setting the socket up. Until the new
    connection has its socket, `event_callback` counts them in `conn->socket`, downwards from -1;
    `lwip_accept` then credits the count to the socket. Each step below is one stretch of code that
    runs without another thread in between. */
module Accept {

  /** A 16-bit signed number, as a cast or an assignment leaves it. */
  function S16(x: int): (r: int)
    ensures -0x8000 <= r < 0x8000
  {
    (x + 0x8000) % 0x1_0000 - 0x8000
  }

  lemma S16Adds(x: int, y: int)
    ensures S16(S16(x) + y) == S16(x + y) && S16(x + S16(y)) == S16(x + y)
  {
  }

  datatype Event = RcvPlus | RcvMinus | Other

  /** Where a callback stands: it has seen a negative number and is going to look again under
      protection, or it has a socket to report to. */
  datatype Callback = Recheck(event: Event) | Report(event: Event, socket: nat)

  datatype Phase = Waiting | Allocated(socket: nat) | Attached(socket: nat)

  /** `number` is `conn->socket`, `rcvevent` belongs to the new socket. `dropped` is there for the
      statements only: how many RCVMINUS events came before there was a socket. */
  datatype State = State(number: int, phase: Phase, rcvevent: int, flight: seq<Callback>, dropped: nat)

  const START := State(-1, Waiting, 0, [], 0)

  /** A callback begins, a callback goes on, or `lwip_accept` goes on. */
  datatype Step = Begin(event: Event) | Move(i: nat) | Alloc(socket: nat) | Attach

  function Without(flight: seq<Callback>, i: nat): (r: seq<Callback>)
    requires i < |flight|
  {
    flight[..i] + flight[i + 1..]
  }

  function Next(st: State, step: Step): (r: State)
  {
    match step
    case Begin(event) =>
      // conn->socket is read without protection
      var callback := if st.number < 0 then Recheck(event) else Report(event, st.number);
      st.(flight := st.flight + [callback])
    case Move(i) =>
      if |st.flight| <= i then st else MoveOn(st, i)
    case Alloc(socket) =>
      if st.phase.Waiting? then st.(phase := Allocated(socket), rcvevent := 0) else st
    case Attach =>
      if st.phase.Allocated? then
        st.(phase := Attached(st.phase.socket),
            rcvevent := S16(st.rcvevent + S16(-1 - st.number)),
            number := st.phase.socket)
      else st
  }

  function MoveOn(st: State, i: nat): (r: State)
    requires i < |st.flight|
  {
    match st.flight[i]
    case Recheck(event) =>
      if st.number < 0 then
        st.(number := if event.RcvPlus? then st.number - 1 else st.number,
            dropped := if event.RcvMinus? then st.dropped + 1 else st.dropped,
            flight := Without(st.flight, i))
      else
        st.(flight := st.flight[i := Report(event, st.number)])
    case Report(event, socket) =>
      if st.phase.Attached? && st.phase.socket == socket then
        st.(rcvevent := Updated(st.rcvevent, event), flight := Without(st.flight, i))
      else
        st.(flight := Without(st.flight, i))
  }

  function Updated(rcvevent: int, event: Event): (r: int)
  {
    match event
    case RcvPlus => S16(rcvevent + 1)
    case RcvMinus => S16(rcvevent - 1)
    case Other => rcvevent
  }

  function Run(steps: seq<Step>): (st: State)
  {
    if steps == [] then START else Next(Run(steps[..|steps| - 1]), steps[|steps| - 1])
  }

  // ---------- Counting ----------

  /** How many callbacks for this event have begun. */
  function Begun(steps: seq<Step>, event: Event): (n: nat)
  {
    if steps == [] then 0
    else
      var last := steps[|steps| - 1];
      Begun(steps[..|steps| - 1], event) + if last == Begin(event) then 1 else 0
  }

  /** How many callbacks for this event have not come to their end. */
  function Pending(flight: seq<Callback>, event: Event): (n: nat)
  {
    if flight == [] then 0
    else Pending(flight[1..], event) + if flight[0].event == event then 1 else 0
  }

  lemma {:induction false} PendingJoin(a: seq<Callback>, b: seq<Callback>, event: Event)
    ensures Pending(a + b, event) == Pending(a, event) + Pending(b, event)
  {
    if a == [] {
      assert a + b == b;
    } else {
      assert (a + b)[1..] == a[1..] + b;
      PendingJoin(a[1..], b, event);
    }
  }

  lemma PendingOne(c: Callback, event: Event)
    ensures Pending([c], event) == if c.event == event then 1 else 0
  {
    var rest: seq<Callback> := [c][1..];
    assert rest == [];
  }

  /** Replacing a callback by one for the same event, and removing it. */
  lemma PendingAt(flight: seq<Callback>, i: nat, c: Callback, event: Event)
    requires i < |flight| && c.event == flight[i].event
    ensures Pending(flight[i := c], event) == Pending(flight, event)
    ensures Pending(flight, event) == Pending(Without(flight, i), event) + if c.event == event then 1 else 0
  {
    var a, b := flight[..i], flight[i + 1..];
    assert flight == a + ([flight[i]] + b) && flight[i := c] == a + ([c] + b);
    PendingJoin(a, [flight[i]] + b, event);
    PendingJoin(a, [c] + b, event);
    PendingJoin([flight[i]], b, event);
    PendingJoin([c], b, event);
    PendingJoin(a, b, event);
    PendingOne(c, event);
    PendingOne(flight[i], event);
  }

  // ---------- The invariant ----------

  /** Every callback that reports to a socket reports to the one the connection has got. */
  predicate Directed(st: State)
  {
    forall i :: 0 <= i < |st.flight| && st.flight[i].Report? ==>
      st.phase.Attached? && st.flight[i].socket == st.phase.socket
  }

  /** plus events have been counted, and minus taken off. */
  predicate Counts(st: State, plus: int, minus: int)
  {
    && (st.phase.Attached? ==> st.number == st.phase.socket && st.rcvevent == S16(plus - minus))
    && (!st.phase.Attached? ==> st.number == -1 - plus < 0 && minus == 0)
    && (st.phase.Allocated? ==> st.rcvevent == 0)
  }

  ghost predicate Inv(steps: seq<Step>, st: State)
  {
    && Directed(st)
    && Counts(st, Begun(steps, RcvPlus) - Pending(st.flight, RcvPlus),
              Begun(steps, RcvMinus) - Pending(st.flight, RcvMinus) - st.dropped)
  }

  lemma MoveKeeps(st: State, i: nat, plus: int, minus: int)
    requires i < |st.flight| && Directed(st) && Counts(st, plus, minus)
    ensures var st' := MoveOn(st, i);
            var plus' := plus + Pending(st.flight, RcvPlus) - Pending(st'.flight, RcvPlus);
            var minus' := minus + Pending(st.flight, RcvMinus) - Pending(st'.flight, RcvMinus) - (st'.dropped - st.dropped);
            Directed(st') && Counts(st', plus', minus')
  {
    var c := st.flight[i];
    var c' := if c.Recheck? && 0 <= st.number then Report(c.event, st.number) else c;
    PendingAt(st.flight, i, c', RcvPlus);
    PendingAt(st.flight, i, c', RcvMinus);
    S16Adds(plus - minus, 1);
    S16Adds(plus - minus, -1);
    hide S16, Pending;
  }

  lemma BeginKeeps(st: State, event: Event, plus: int, minus: int)
    requires Directed(st) && Counts(st, plus, minus)
    ensures var st' := Next(st, Begin(event));
            && Directed(st') && Counts(st', plus, minus) && st'.dropped == st.dropped
            && (forall e :: Pending(st'.flight, e) == Pending(st.flight, e) + if e == event then 1 else 0)
  {
    hide S16, Pending;
    var c := if st.number < 0 then Recheck(event) else Report(event, st.number);
    forall e
      ensures Pending(st.flight + [c], e) == Pending(st.flight, e) + if e == event then 1 else 0
    {
      PendingJoin(st.flight, [c], e);
      PendingOne(c, e);
    }
  }

  lemma AcceptKeeps(st: State, step: Step, plus: int, minus: int)
    requires Directed(st) && Counts(st, plus, minus) && (step.Alloc? || step.Attach?)
    ensures var st' := Next(st, step);
            Directed(st') && Counts(st', plus, minus) && st'.flight == st.flight && st'.dropped == st.dropped
  {
    S16Adds(0, plus);
    hide S16;
  }

  /** Every step of every run keeps the counts. */
  lemma {:induction false} RunKeepsInv(steps: seq<Step>)
    ensures Inv(steps, Run(steps))
  {
    hide Directed, Counts, Pending, MoveOn;
    if steps == [] {
      Started();
    } else {
      var front, last := steps[..|steps| - 1], steps[|steps| - 1];
      RunKeepsInv(front);
      var st := Run(front);
      var plus := Begun(front, RcvPlus) - Pending(st.flight, RcvPlus);
      var minus := Begun(front, RcvMinus) - Pending(st.flight, RcvMinus) - st.dropped;
      match last {
        case Begin(event) => BeginKeeps(st, event, plus, minus);
        case Move(i) =>
          if i < |st.flight| {
            MoveKeeps(st, i, plus, minus);
          }
        case Alloc(_) => AcceptKeeps(st, last, plus, minus);
        case Attach => AcceptKeeps(st, last, plus, minus);
      }
    }
  }

  lemma Started()
    ensures Directed(START) && Counts(START, 0, 0)
    ensures Pending(START.flight, RcvPlus) == Pending(START.flight, RcvMinus) == 0
  {
  }

  /** In every interleaving: once the socket is attached and the callbacks that have begun have come
      to their end, its count is what has been received less what has been taken, in 16 bits. */
  lemma EventsSurviveAccept(steps: seq<Step>)
    requires Run(steps).phase.Attached? && Run(steps).flight == []
    ensures var balance := Begun(steps, RcvPlus) - (Begun(steps, RcvMinus) - Run(steps).dropped);
            && Run(steps).rcvevent == S16(balance)
            && (Run(steps).rcvevent == balance <==> -0x8000 <= balance < 0x8000)
  {
    RunKeepsInv(steps);
  }

  // ---------- More events than the counter holds ----------

  /** A socket that is attached, and n receive events one after the other. */
  function Flood(n: nat): (steps: seq<Step>)
  {
    if n == 0 then [Alloc(0), Attach] else Flood(n - 1) + [Begin(RcvPlus), Move(0)]
  }

  lemma {:induction false} FloodCounts(n: nat)
    ensures Run(Flood(n)) == State(0, Attached(0), S16(n), [], 0)
    ensures Begun(Flood(n), RcvPlus) == n && Begun(Flood(n), RcvMinus) == 0
  {
    hide Run, Begun, Next, S16;
    if n == 0 {
      RunMore([], Alloc(0));
      RunMore([Alloc(0)], Attach);
      assert [] + [Alloc(0)] == [Alloc(0)] && [Alloc(0)] + [Attach] == Flood(0);
      FloodBegins();
    } else {
      var front := Flood(n - 1);
      FloodCounts(n - 1);
      RunMore(front, Begin(RcvPlus));
      RunMore(front + [Begin(RcvPlus)], Move(0));
      assert Flood(n) == front + [Begin(RcvPlus)] + [Move(0)];
      S16Adds(n - 1, 1);
      OneMoreEvent(S16(n - 1));
    }
  }

  lemma RunMore(front: seq<Step>, step: Step)
    ensures Run(front + [step]) == Next(Run(front), step)
    ensures forall e :: Begun(front + [step], e) == Begun(front, e) + if step == Begin(e) then 1 else 0
  {
    assert (front + [step])[..|front|] == front;
  }

  lemma FloodBegins()
    ensures Next(Next(Run([]), Alloc(0)), Attach) == State(0, Attached(0), S16(0), [], 0)
    ensures forall e :: Begun([], e) == 0
  {
  }

  lemma OneMoreEvent(x: int)
    ensures Next(Next(State(0, Attached(0), x, [], 0), Begin(RcvPlus)), Move(0))
            == State(0, Attached(0), S16(x + 1), [], 0)
  {
    hide S16;
    var flight := [Report(RcvPlus, 0)];
    assert [] + flight == flight;
    assert Without(flight, 0) == [];
  }

  /** After 32768 receive events, none of them taken, the counter of the socket is negative. */
  lemma CounterOverflows()
    ensures Begun(Flood(32768), RcvPlus) == 32768 && Begun(Flood(32768), RcvMinus) == 0
    ensures Run(Flood(32768)).rcvevent == -32768
  {
    FloodCounts(32768);
    hide Flood, Run, Begun;
  }
}

/** `do_write` and `do_writemore`: a write that is resumed from the sent and poll callbacks. */
module WriteMachine {
  import opened Common

  /** The request of one `netconn_write`; its length is not zero. */
  datatype Msg = Msg(data: seq<byte>, dontblock: bool)

  datatype Err = Ok | Mem | WouldBlock

  /** What TCP answers to one attempt: `tcp_sndbuf`, and whether `tcp_write` takes all of the
      bytes offered to it or none. */
  datatype Answer = Answer(sndbuf: nat, takes: bool)

  /** What the waiting thread finds in its message when it is released. */
  datatype Report = Report(err: Err, len: nat)

  datatype Outcome = InProgress | Finished | Waiting

  function Min(a: nat, b: nat): (r: nat)
  {
    if a < b then a else b
  }

  /** A non-blocking write that is too long for one `tcp_write`. */
  predicate Oversized(msg: Msg)
  {
    msg.dontblock && 0xffff < |msg.data|
  }

  /** One attempt is enough for all of the data. */
  predicate TakesAll(data: seq<byte>, a: Answer)
  {
    a.takes && |data| <= 0xffff && |data| <= a.sndbuf
  }

  /** What one attempt takes of n bytes. */
  function Attempt(n: nat, a: Answer): (taken: nat)
    ensures taken <= n
  {
    if a.takes then Min(n, Min(0xffff, a.sndbuf)) else 0
  }

  lemma Extend(before: seq<byte>, data: seq<byte>, from: nat, len: nat)
    requires from + len <= |data|
    ensures before + data[..from] + data[from..from + len] == before + data[..from + len]
  {
    assert data[..from] + data[from..from + len] == data[..from + len];
  }

  class Netconn {
    /** `LWIP_TCPIP_CORE_LOCKING` */
    const coreLocking: bool
    /** The message of the write in progress; `conn->state` is NETCONN_WRITE exactly then. */
    var current: Option<Msg>
    var writeOffset: nat
    /** `NETCONN_FLAG_WRITE_DELAYED` */
    var delayed: bool
    /** The count of the semaphore `conn->op_completed`, and the threads that sleep on it. */
    var sem: nat
    var sleeping: seq<nat>
    var reports: seq<Report>

    /** All bytes `tcp_write` ever took, and those of them taken before the current write. */
    ghost var accepted: seq<byte>
    ghost var before: seq<byte>
    /** Signals that were given although no thread was going to wait for them. */
    ghost var strays: nat
    /** Which of the sleeping threads made the write in progress. The message is on its stack. */
    var owner: Option<nat>

    /** The write in progress and the bytes taken fit together. */
    ghost predicate Shaped()
      reads this
    {
      && (current.None? ==> writeOffset == 0)
      && (current.Some? ==>
            && !current.value.dontblock
            && writeOffset < |current.value.data|
            && accepted == before + current.value.data[..writeOffset]
            && (coreLocking ==> delayed))
    }

    /** Every sleeping thread has its signal, given already or due at the end of the write in
        progress; what is given beyond that are the stray signals. */
    ghost predicate Valid()
      reads this
    {
      && Shaped()
      && sem + (if current.Some? then 1 else 0) == |sleeping| + strays
      && (!coreLocking ==> strays == 0)
      && (owner.Some? ==> current.Some? && owner.value < |sleeping|)
    }

    /** `current_msg` points to a message that is still there: the thread of the write in progress
        sleeps. */
    predicate Alive()
      reads this
    {
      current.Some? ==> owner.Some?
    }

    constructor (coreLocking: bool)
      ensures Valid() && Alive() && current == None && reports == [] && accepted == []
      ensures sem == 0 && sleeping == [] && strays == 0
      ensures this.coreLocking == coreLocking
    {
      this.coreLocking := coreLocking;
      current, writeOffset, delayed, sem, sleeping, reports := None, 0, false, 0, [], [];
      accepted, before, strays, owner := [], [], 0, None;
    }

    /** The attempt at writing the rest of msg: what is offered to `tcp_write`, with the flag
        raised along the way, and the error. */
    method Offer(msg: Msg, a: Answer) returns (len: nat, err: Err)
      requires writeOffset < |msg.data|
      modifies this`delayed
      ensures len == Min(|msg.data| - writeOffset, Min(0xffff, a.sndbuf))
      ensures err == Ok ==> a.takes
      ensures err == WouldBlock ==> msg.dontblock
      ensures a.takes && 0 < a.sndbuf ==> err == Ok && 0 < len
      ensures delayed == (old(delayed)
                          || (coreLocking && (0xffff < |msg.data| - writeOffset
                                              || (!msg.dontblock && a.sndbuf < |msg.data| - writeOffset))))
    {
      var diff := |msg.data| - writeOffset;
      len := diff;
      if 0xffff < diff {
        len := 0xffff;
        delayed := delayed || coreLocking;
      }
      err := if a.takes then Ok else Mem;
      if a.sndbuf < len {
        len := a.sndbuf;
        if msg.dontblock {
          if len == 0 {
            err := WouldBlock;
          }
        } else {
          delayed := delayed || coreLocking;
        }
      }
    }

    /** `do_writemore`: one attempt to write what is left. It finishes with a report on all
        bytes taken for this message, or leaves the write in progress. */
    method WriteMore(a: Answer) returns (finished: bool)
      requires current.Some? && writeOffset < |current.value.data|
      requires accepted == before + current.value.data[..writeOffset]
      requires current.value.dontblock ==> writeOffset == 0
      modifies this
      ensures Shaped() && before == old(before) && sleeping == old(sleeping) && strays == old(strays)
      ensures owner == if finished then None else old(owner)
      ensures !finished ==> current == old(current) && reports == old(reports) && sem == old(sem)
                            && writeOffset == old(writeOffset) + Attempt(|old(current).value.data| - old(writeOffset), a)
      ensures finished ==> current == None && Concluded(old(current).value, old(reports))
      ensures finished ==> sem == old(sem) + SignalsAtEnd(old(current).value, old(delayed))
      ensures a.takes && 0 < a.sndbuf && !finished ==> old(writeOffset) < writeOffset
      ensures old(current).value.dontblock ==> finished
      ensures !old(current).value.dontblock && old(writeOffset) == 0 ==> (finished <==> TakesAll(old(current).value.data, a))
    {
      var msg := current.value;
      var len, err := Offer(msg, a);
      finished := false;
      var reported := 0;
      if err == Ok {
        Extend(before, msg.data, writeOffset, len);
        accepted := accepted + msg.data[writeOffset..writeOffset + len];
        writeOffset := writeOffset + len;
        if writeOffset == |msg.data| || msg.dontblock {
          reported := writeOffset;
          finished := true;
          writeOffset := 0;
        }
      } else if err == Mem && !msg.dontblock {
        delayed := delayed || coreLocking;
      } else {
        finished := true;
      }
      if finished {
        reports := reports + [Report(err, reported)];
        current, owner := None, None;
        if !coreLocking || delayed {
          sem := sem + 1;
        }
      }
    }

    /** `op_completed` is signalled at the end unless core locking lets the caller go on anyway. */
    function SignalsAtEnd(msg: Msg, wasDelayed: bool): (n: nat)
    {
      if !coreLocking || wasDelayed || Oversized(msg) then 1 else 0
    }

    /** The write of msg is over: one report was added, its length counts the bytes that were
        taken, they are the first bytes of the buffer, and a blocking write took them all. */
    ghost predicate Concluded(msg: Msg, earlier: seq<Report>)
      reads this
    {
      && |reports| == |earlier| + 1 && earlier <= reports
      && var r := reports[|earlier|];
         && r.len <= |msg.data|
         && accepted == before + msg.data[..r.len]
         && (r.err == Ok || r.len == 0)
         && (!msg.dontblock ==> r == Report(Ok, |msg.data|))
    }

    /** `do_write` of a new message by thread t: refused while another write is in progress. The
        thread goes to sleep on `op_completed` when the write is left in progress, and without core
        locking in any case: there the refusal, too, is acknowledged by a signal. */
    method DoWrite(t: nat, msg: Msg, a: Answer) returns (outcome: Outcome)
      requires Valid() && msg.data != []
      modifies this
      ensures Valid()
      ensures outcome == InProgress <==> old(current).Some?
      ensures outcome == InProgress ==>
                && current == old(current) && writeOffset == old(writeOffset) && delayed == old(delayed)
                && accepted == old(accepted) && before == old(before) && reports == old(reports)
                && sem == old(sem) + if coreLocking then 0 else 1
      ensures outcome != InProgress ==> before == old(accepted)
      ensures outcome == Waiting ==> && current == Some(msg) && reports == old(reports) && sem == old(sem)
                                     && writeOffset == Attempt(|msg.data|, a)
      ensures outcome == Finished ==> current == None && Concluded(msg, old(reports))
      ensures outcome == Finished ==> sem == old(sem) + SignalsAtEnd(msg, false)
      ensures msg.dontblock ==> outcome != Waiting
      ensures !msg.dontblock ==> (outcome == Finished <==> old(current).None? && TakesAll(msg.data, a))
      ensures sleeping == old(sleeping) + if coreLocking && outcome != Waiting then [] else [t]
      ensures strays == old(strays) + if coreLocking && outcome == Finished && Oversized(msg) then 1 else 0
      ensures owner == if outcome == InProgress then old(owner)
                       else if outcome == Waiting then Some(|old(sleeping)|)
                       else None
    {
      if current.Some? {
        if !coreLocking {
          sem := sem + 1;
          sleeping := sleeping + [t];
        }
        return InProgress;
      }
      current, owner := Some(msg), Some(|sleeping|);
      writeOffset := 0;
      delayed := false;
      before := accepted;
      var finished := WriteMore(a);
      if !finished || !coreLocking {
        sleeping := sleeping + [t];
      } else {
        strays := strays + SignalsAtEnd(msg, false);
      }
      return if finished then Finished else Waiting;
    }

    /** `sent_tcp` or `poll_tcp`: resume the write if there is one. Its message has to be there. */
    method Resume(a: Answer)
      requires Valid() && Alive()
      modifies this
      ensures Valid() && Alive() && before == old(before) && sleeping == old(sleeping) && strays == old(strays)
      ensures old(current).None? ==> unchanged(this)
      ensures old(current).Some? && current.Some?
              ==> current == old(current) && owner == old(owner) && reports == old(reports) && sem == old(sem)
                  && old(writeOffset) <= writeOffset
                  && (a.takes && 0 < a.sndbuf ==> old(writeOffset) < writeOffset)
      ensures old(current).Some? && current.None?
              ==> Concluded(old(current).value, old(reports)) && sem == old(sem) + 1
    {
      if current.Some? {
        var finished := WriteMore(a);
      }
    }

    /** A sleeping thread takes a signal. Which one that is the semaphore does not say. */
    method Wake(i: nat)
      requires Valid() && 0 < sem && i < |sleeping|
      modifies this`sem, this`sleeping, this`owner
      ensures Valid() && sem == old(sem) - 1
      ensures sleeping == old(sleeping)[..i] + old(sleeping)[i + 1..]
      ensures owner.Some? <==> old(owner).Some? && old(owner).value != i
      ensures owner.Some? ==> sleeping[owner.value] == old(sleeping)[old(owner).value]
    {
      owner := if owner.None? || owner.value == i then None
               else if i < owner.value then Some(owner.value - 1)
               else owner;
      sem := sem - 1;
      sleeping := sleeping[..i] + sleeping[i + 1..];
    }
  }

  // ---------- One blocking write ----------

  /** How much of a write of data has been taken. */
  function Taken(conn: Netconn, data: seq<byte>): (n: nat)
    reads conn
  {
    if conn.current.None? then |data| else conn.writeOffset
  }

  /** A blocking write under any answers of TCP, until its thread goes on. Its bytes are taken in
      order, without gap or repeat. The thread goes on when `released` bytes were taken; these are all
      of them exactly if no signal was pending when the write began, or the first attempt took
      everything. Otherwise it leaves behind a write in progress whose message is gone. It does go on
      once TCP has made room often enough. */
  method BlockingWrite(conn: Netconn, t: nat, data: seq<byte>, first: Answer, later: seq<Answer>)
    returns (released: Option<nat>)
    requires conn.Valid() && conn.current == None && data != []
    modifies conn
    ensures conn.Valid()
    ensures Taken(conn, data) <= |data| && conn.accepted == old(conn.accepted) + data[..Taken(conn, data)]
    ensures Taken(conn, data) == |data| <==> conn.current == None
    ensures conn.current == None || conn.current == Some(Msg(data, false))
    ensures conn.reports == old(conn.reports) + if conn.current.None? then [Report(Ok, |data|)] else []
    ensures released.Some? && released.value < |data| <==> 0 < old(conn.sem) && !TakesAll(data, first)
    ensures conn.Alive() <==> old(conn.sem) == 0 || TakesAll(data, first)
    ensures released.Some? ==> released.value == Taken(conn, data)
    ensures later == [] || 0 < old(conn.sem) ==> Taken(conn, data) == Attempt(|data|, first)
    ensures released.Some? <==> 0 < old(conn.sem) || conn.current.None?
    ensures conn.sleeping == old(conn.sleeping) + if released.Some? then [] else [t]
    ensures (forall i :: 0 <= i < |later| ==> later[i].takes && 0 < later[i].sndbuf) && |data| <= |later|
            ==> released.Some?
  {
    var outcome := conn.DoWrite(t, Msg(data, false), first);
    released := None;
    if outcome == Finished && conn.coreLocking {
      released := Some(|data|);
    } else if 0 < conn.sem {
      released := Some(Taken(conn, data));
      conn.Wake(|conn.sleeping| - 1);
    }
    assert data[..|data|] == data;
    var n := 0;
    while n < |later| && released.None?
      invariant n <= |later| && (n == 0 ==> Taken(conn, data) == Attempt(|data|, first))
      invariant conn.Valid() && conn.before == old(conn.accepted)
      invariant conn.current.Some? ==> conn.current == Some(Msg(data, false)) && conn.reports == old(conn.reports)
      invariant conn.current.None? ==> conn.Concluded(Msg(data, false), old(conn.reports))
      invariant conn.Alive() <==> old(conn.sem) == 0 || TakesAll(data, first)
      invariant released.Some? ==> released.value == Taken(conn, data)
      invariant 0 < old(conn.sem) ==> n == 0 && released.Some?
      invariant released.None? <==> old(conn.sem) == 0 && conn.current.Some?
      invariant released.None? ==> conn.sem == 0
      invariant conn.sleeping == old(conn.sleeping) + if released.Some? then [] else [t]
      invariant (forall i :: 0 <= i < |later| ==> later[i].takes && 0 < later[i].sndbuf)
                ==> released.Some? || n <= conn.writeOffset
    {
      conn.Resume(later[n]);
      if 0 < conn.sem {
        released := Some(Taken(conn, data));
        conn.Wake(|conn.sleeping| - 1);
      }
      n := n + 1;
    }
  }

  // ---------- Any threads, any order ----------

  datatype Event = Write(t: nat, msg: Msg, a: Answer) | More(a: Answer) | Release(i: nat)

  /** The oversized non-blocking writes among the events. */
  function OversizedWrites(events: seq<Event>): (n: nat)
  {
    if events == [] then 0
    else
      var last := events[|events| - 1];
      OversizedWrites(events[..|events| - 1]) + if last.Write? && Oversized(last.msg) then 1 else 0
  }

  lemma OversizedMore(events: seq<Event>, n: nat)
    requires n < |events|
    ensures OversizedWrites(events[..n + 1])
            == OversizedWrites(events[..n]) + if events[n].Write? && Oversized(events[n].msg) then 1 else 0
  {
    assert events[..n + 1][..n] == events[..n];
  }

  /** Any sequence of writes, callbacks and wake-ups, up to the first time that a thread goes on before
      its write has ended. The pending signals are those of the sleeping threads, less the one that is
      due, and `oversized` stray ones: one for every oversized non-blocking write that core locking let
      through. So a thread can be woken while a write is in progress exactly if a second one sleeps or a
      stray signal was given, and between writes every sleeping thread can be. */
  method Run(conn: Netconn, events: seq<Event>) returns (done: nat, oversized: nat)
    requires conn.Valid() && conn.Alive()
    requires forall i :: 0 <= i < |events| && events[i].Write? ==> events[i].msg.data != []
    modifies conn
    ensures conn.Valid() && done <= |events| && (conn.Alive() ==> done == |events|)
    ensures conn.current.Some? ==>
              && conn.sem + 1 == |conn.sleeping| + old(conn.strays) + oversized
              && (0 < conn.sem <==> 1 < |conn.sleeping| + old(conn.strays) + oversized)
    ensures conn.current.None? ==> conn.sem == |conn.sleeping| + old(conn.strays) + oversized
    ensures oversized <= if conn.coreLocking then OversizedWrites(events[..done]) else 0
    ensures conn.coreLocking && old(conn.current).None?
            && (forall i :: 0 <= i < |events| && events[i].Write? ==> events[i].msg.dontblock)
            ==> oversized == OversizedWrites(events[..done])
  {
    done, oversized := 0, 0;
    while done < |events| && conn.Alive()
      invariant conn.Valid() && done <= |events| && conn.strays == old(conn.strays) + oversized
      invariant oversized <= if conn.coreLocking then OversizedWrites(events[..done]) else 0
      invariant conn.coreLocking && old(conn.current).None?
                && (forall i :: 0 <= i < |events| && events[i].Write? ==> events[i].msg.dontblock)
                ==> conn.current.None? && oversized == OversizedWrites(events[..done])
      decreases |events| - done
    {
      OversizedMore(events, done);
      match events[done] {
        case Write(t, msg, a) =>
          var outcome := conn.DoWrite(t, msg, a);
          if conn.coreLocking && outcome == Finished && Oversized(msg) {
            oversized := oversized + 1;
          }
        case More(a) => conn.Resume(a);
        case Release(i) =>
          if 0 < conn.sem && i < |conn.sleeping| {
            conn.Wake(i);
          }
      }
      done := done + 1;
    }
  }

  // ---------- Threads that go on too early ----------

  /** With core locking: an oversized non-blocking write leaves a signal behind, and the next blocking
      write goes on before a byte of it was taken. */
  method StraySignal(t: nat, data: seq<byte>) returns (conn: Netconn, released: Option<nat>)
    requires data != []
    ensures fresh(conn) && conn.Valid() && conn.coreLocking
    ensures released == Some(0) && conn.current == Some(Msg(data, false)) && !conn.Alive()
  {
    conn := new Netconn(true);
    var big: seq<byte> := seq(70000, i => 0);
    var outcome := conn.DoWrite(t, Msg(big, true), Answer(60000, true));
    assert conn.sem == 1 && conn.sleeping == [];
    released := BlockingWrite(conn, t, data, Answer(0, false), []);
  }

  /** Without core locking: the signal that acknowledges a refused write wakes the thread whose write
      is in progress. */
  method RefusedWriteWakes(t: nat, u: nat, data: seq<byte>) returns (conn: Netconn)
    requires data != []
    ensures fresh(conn) && conn.Valid() && !conn.coreLocking
    ensures conn.sleeping == [u] && conn.current == Some(Msg(data, false)) && conn.writeOffset == 0 && !conn.Alive()
  {
    conn := new Netconn(false);
    var outcome := conn.DoWrite(t, Msg(data, false), Answer(0, false));
    outcome := conn.DoWrite(u, Msg(data, false), Answer(0, false));
    assert conn.sleeping == [t, u];
    conn.Wake(0);
  }
}

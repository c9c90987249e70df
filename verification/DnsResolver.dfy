/** The resolver itself: `dns_enqueue`, `dns_check_entries` and `dns_recv` on the table. */
module DnsResolver {
  import opened Common
  import opened DnsTable

  /** `DNS_MAX_NAME_LENGTH` */
  const MAX_NAME := 256

  /** A resource record of a response: whether it is an IPv4 address, its TTL and the address. */
  datatype Record = Record(isAddress: bool, ttl: nat, addr: nat)

  /** A response: its id, whether it is one and has no error and one question, whether the name in
      the question matches a given name, and its answers. */
  datatype Response = Response(id: nat, flagsOk: bool, matches: string -> bool, answers: seq<Record>)

  // ---------- Requests that wait for their callback ----------

  /** The callback that an entry still owes. */
  function OwedBy(e: Entry): (r: multiset<nat>)
  {
    if (e.state == New || e.state == Asking) && e.found.Some? then multiset{e.found.value} else multiset{}
  }

  function Owed(t: seq<Entry>): (r: multiset<nat>)
  {
    if t == [] then multiset{} else OwedBy(t[0]) + Owed(t[1..])
  }

  /** The call that calling back an entry makes. */
  function Made(e: Entry): (r: multiset<nat>)
  {
    if e.found.Some? then multiset{e.found.value} else multiset{}
  }

  function Called(log: seq<Answer>): (r: multiset<nat>)
  {
    if log == [] then multiset{} else Called(log[..|log| - 1]) + multiset{log[|log| - 1].request}
  }

  /** The numbers below n, each once. */
  function Upto(n: nat): (r: multiset<nat>)
  {
    if n == 0 then multiset{} else Upto(n - 1) + multiset{n - 1}
  }

  lemma {:induction false} UptoCount(n: nat, k: nat)
    ensures Upto(n)[k] == if k < n then 1 else 0
  {
    if n != 0 {
      UptoCount(n - 1, k);
    }
  }

  lemma Regroup(a: multiset<nat>, b: multiset<nat>, x: multiset<nat>, c: multiset<nat>, y: multiset<nat>)
    requires b + x == c + y
    ensures a + b + x == a + c + y
  {
    assert a + b + x == a + (b + x);
    assert a + c + y == a + (c + y);
  }

  lemma {:induction false} OwedUpdate(t: seq<Entry>, i: nat, e: Entry)
    requires i < |t|
    ensures Owed(t[i := e]) + OwedBy(t[i]) == Owed(t) + OwedBy(e)
  {
    hide OwedBy;
    var t' := t[i := e];
    if i == 0 {
      assert t'[1..] == t[1..];
    } else {
      OwedUpdate(t[1..], i - 1, e);
      assert t'[1..] == t[1..][i - 1 := e];
      Regroup(OwedBy(t[0]), Owed(t'[1..]), OwedBy(t[i]), Owed(t[1..]), OwedBy(e));
    }
  }

  /** An entry that stops owing a callback when this callback is made, or owes as before. */
  lemma Conserved(owed: multiset<nat>, owed': multiset<nat>, called: multiset<nat>, called': multiset<nat>,
                  before: multiset<nat>, after: multiset<nat>, made: multiset<nat>)
    requires owed' + before == owed + after
    requires called' == called + made && before == after + made
    ensures owed' + called' == owed + called
  {
    forall k: nat
      ensures (owed' + called')[k] == (owed + called)[k]
    {
      assert (owed' + before)[k] == (owed + after)[k];
    }
  }

  lemma CalledMore(log: seq<Answer>, a: Answer)
    ensures Called(log + [a]) == Called(log) + multiset{a.request}
  {
    assert (log + [a])[..|log|] == log;
  }

  lemma {:induction false} NothingOwed(t: seq<Entry>)
    requires forall i :: 0 <= i < |t| ==> t[i].state == Unused
    ensures Owed(t) == multiset{}
  {
    if t != [] {
      NothingOwed(t[1..]);
    }
  }

  lemma CheckKeepsEntry(c: Config, e: Entry)
    requires ValidConfig(c) && ValidEntry(c, e)
    ensures ValidEntry(c, Check(c, e)) && Check(c, e).state != New
    ensures OwedBy(e) == OwedBy(Check(c, e)) + if TimesOut(c, e) then Made(e) else multiset{}
  {
    if e.state == Asking && e.found.Some? {
      assert multiset{} + multiset{e.found.value} == multiset{e.found.value};
    }
  }

  // ---------- The choice of an entry ----------

  /** The age of a completed entry, as the code computes it from two `u8_t` numbers. */
  function Age(seqno: nat, e: Entry): (a: int)
  {
    seqno - e.seqno
  }

  /** k is the entry that `dns_enqueue` takes: the first unused one; otherwise the completed entry
      with the greatest positive age, the first of them if there are several; otherwise entry 0,
      if it is completed. */
  ghost predicate IsChoice(t: seq<Entry>, seqno: nat, k: nat)
  {
    && k < |t|
    && (t[k].state == Unused || t[k].state == Done)
    && (t[k].state == Unused ==> forall i :: 0 <= i < k ==> t[i].state != Unused)
    && (t[k].state == Done ==>
          && (forall i :: 0 <= i < |t| ==> t[i].state != Unused)
          && (forall i :: 0 <= i < |t| && t[i].state == Done ==> Age(seqno, t[i]) <= Age(seqno, t[k]) || Age(seqno, t[i]) <= 0)
          && (forall i :: 0 <= i < k && t[i].state == Done ==> Age(seqno, t[i]) < Age(seqno, t[k]))
          && (Age(seqno, t[k]) <= 0 ==> k == 0))
  }

  lemma ChoiceIsFree(t: seq<Entry>, seqno: nat, k: nat)
    requires IsChoice(t, seqno, k)
    ensures k < |t| && (t[k].state == Unused || t[k].state == Done)
  {
  }

  /** The search has seen i entries, none of them unused; `lseqi` is the first of the completed ones
      with the greatest age, which is `lseq`, or 0 if none is older than that. */
  ghost predicate Scanned(t: seq<Entry>, seqno: nat, i: nat, lseq: int, lseqi: nat)
  {
    && i <= |t| && lseqi < |t| && 0 <= lseq
    && (forall j :: 0 <= j < i ==> t[j].state != Unused)
    && (forall j :: 0 <= j < i && t[j].state == Done ==> Age(seqno, t[j]) <= lseq)
    && (if lseq == 0 then lseqi == 0
        else
          && lseqi < i && t[lseqi].state == Done && Age(seqno, t[lseqi]) == lseq
          && forall j :: 0 <= j < lseqi && t[j].state == Done ==> Age(seqno, t[j]) < lseq)
  }

  lemma ScanStep(t: seq<Entry>, seqno: nat, i: nat, lseq: int, lseqi: nat)
    requires Scanned(t, seqno, i, lseq, lseqi) && i < |t| && t[i].state != Unused
    ensures if t[i].state == Done && lseq < Age(seqno, t[i]) then Scanned(t, seqno, i + 1, Age(seqno, t[i]), i)
            else Scanned(t, seqno, i + 1, lseq, lseqi)
  {
  }

  lemma ScanFinds(t: seq<Entry>, seqno: nat, i: nat, lseq: int, lseqi: nat)
    requires Scanned(t, seqno, i, lseq, lseqi) && i < |t| && t[i].state == Unused
    ensures CanChoose(t, seqno) && IsChoice(t, seqno, i)
  {
  }

  lemma ScanEnds(t: seq<Entry>, seqno: nat, lseq: int, lseqi: nat)
    requires Scanned(t, seqno, |t|, lseq, lseqi)
    ensures t[lseqi].state == Done <==> CanChoose(t, seqno)
    ensures t[lseqi].state == Done ==> IsChoice(t, seqno, lseqi)
  {
  }

  ghost predicate CanChoose(t: seq<Entry>, seqno: nat)
  {
    || (exists i :: 0 <= i < |t| && t[i].state == Unused)
    || (exists i :: 0 <= i < |t| && t[i].state == Done && 0 < Age(seqno, t[i]))
    || (0 < |t| && t[0].state == Done)
  }

  /** After the sequence number has wrapped around, a completed entry behind a waiting one is not
      found. */
  lemma CompletedMayBeMissed()
    ensures var waiting := Entry(Asking, 0, 1, 0, 4, 0, "a", 0, None);
            var done := Entry(Done, 0, 1, 0, 200, 60, "b", 1, None);
            !CanChoose([waiting, done], 5)
  {
  }

  /** As long as it has not, an entry is found exactly if one is unused or completed. */
  lemma FoundBeforeWrap(t: seq<Entry>, seqno: nat)
    requires forall i :: 0 <= i < |t| && t[i].state == Done ==> 0 < Age(seqno, t[i])
    ensures CanChoose(t, seqno) <==> exists i :: 0 <= i < |t| && (t[i].state == Unused || t[i].state == Done)
  {
    if 0 < |t| && t[0].state == Done {
      assert exists i :: 0 <= i < |t| && t[i].state == Done;
    }
  }

  class Resolver {
    const c: Config
    const table: array<Entry>
    var seqno: nat
    /** How many requests with a callback were accepted, and the callbacks made so far. */
    var requests: nat
    var log: seq<Answer>

    /** Every accepted request was called back once or waits in one entry, and not both. */
    ghost predicate Conserving()
      reads this, table
    {
      && ValidConfig(c)
      && 0 < table.Length < 256
      && seqno < 256
      && (forall i :: 0 <= i < table.Length ==> ValidEntry(c, table[i]))
      && Owed(table[..]) + Called(log) == Upto(requests)
    }

    /** Also, no entry waits for its first query. */
    ghost predicate Valid()
      reads this, table
    {
      Conserving() && forall i :: 0 <= i < table.Length ==> table[i].state != New
    }

    constructor (c: Config, size: nat)
      requires ValidConfig(c) && 0 < size < 256
      ensures Valid() && fresh(table) && this.c == c && table.Length == size
      ensures requests == 0 && log == [] && seqno == 0
      ensures forall i :: 0 <= i < table.Length ==> table[i].state == Unused
    {
      this.c := c;
      table := new Entry[size](_ => Entry(Unused, 0, 0, 0, 0, 0, "", 0, None));
      seqno, requests, log := 0, 0, [];
      new;
      NothingOwed(table[..]);
    }

    /** Store an entry. */
    method Put(i: nat, e: Entry)
      requires i < table.Length
      modifies table
      ensures table[..] == old(table[..])[i := e]
      ensures table[i] == e && forall j :: 0 <= j < table.Length && j != i ==> table[j] == old(table[j])
      ensures Owed(table[..]) + OwedBy(old(table[i])) == old(Owed(table[..])) + OwedBy(e)
    {
      OwedUpdate(table[..], i, e);
      table[i] := e;
      assert table[..] == old(table[..])[i := e];
    }

    /** Call the callback of entry i, if it has one. */
    method CallBack(i: nat, addr: Option<nat>)
      requires i < table.Length
      modifies this`log
      ensures log == old(log) + if table[i].found.Some? then [Answer(table[i].found.value, addr)] else []
      ensures Called(log) == Called(old(log)) + Made(table[i])
    {
      if table[i].found.Some? {
        CalledMore(log, Answer(table[i].found.value, addr));
        log := log + [Answer(table[i].found.value, addr)];
      }
    }

    /** `dns_check_entry`: the entry goes on by a tick; giving up calls back with no address. */
    method CheckEntry(i: nat)
      requires Conserving() && i < table.Length
      modifies this`log, table
      ensures Conserving() && table[i].state != New
      ensures table[..] == old(table[..])[i := Check(c, old(table[i]))]
      ensures forall j :: 0 <= j < table.Length && j != i ==> table[j] == old(table[j])
      ensures log == old(log) + if TimesOut(c, old(table[i])) && old(table[i]).found.Some?
                                then [Answer(old(table[i]).found.value, None)] else []
    {
      hide Owed, OwedBy, Made, Called, Upto, Check, TimesOut, ValidEntry;
      var e := table[i];
      CheckKeepsEntry(c, e);
      ghost var owed, called := Owed(table[..]), Called(log);
      ghost var made := if TimesOut(c, e) then Made(e) else multiset{};
      if TimesOut(c, e) {
        CallBack(i, None);
      }
      Put(i, Check(c, e));
      Conserved(owed, Owed(table[..]), called, Called(log), OwedBy(e), OwedBy(Check(c, e)), made);
    }

    /** `dns_check_entries`: one tick for every entry. */
    method CheckEntries()
      requires Valid()
      modifies this`log, table
      ensures Valid() && old(log) <= log
      ensures forall i :: 0 <= i < table.Length ==> table[i] == Check(c, old(table[i]))
      ensures forall i :: 0 <= i < table.Length && TimesOut(c, old(table[i])) && old(table[i]).found.Some?
                ==> Answer(old(table[i]).found.value, None) in log
    {
      hide Owed, Called, Upto, Check, ValidEntry, TimesOut;
      var i := 0;
      while i < table.Length
        invariant i <= table.Length && Valid() && old(log) <= log
        invariant forall j :: 0 <= j < i && TimesOut(c, old(table[j])) && old(table[j]).found.Some?
                    ==> Answer(old(table[j]).found.value, None) in log
        invariant forall j :: 0 <= j < table.Length ==> table[j] == if j < i then Check(c, old(table[j])) else old(table[j])
      {
        CheckEntry(i);
        i := i + 1;
      }
    }

    /** Find the entry for a new request: an unused one, or the oldest completed one. */
    method Choose() returns (ok: bool, k: nat)
      requires Valid()
      ensures ok <==> CanChoose(table[..], seqno)
      ensures ok ==> IsChoice(table[..], seqno, k)
    {
      ghost var t := table[..];
      assert Scanned(t, seqno, 0, 0, 0);
      hide CanChoose, IsChoice, Scanned;
      var lseq, lseqi: nat, i: nat := 0, 0, 0;
      while i < table.Length
        invariant i <= table.Length && lseqi < table.Length && Scanned(t, seqno, i, lseq, lseqi)
      {
        var e := table[i];
        if e.state == Unused {
          ScanFinds(t, seqno, i, lseq, lseqi);
          return true, i;
        }
        ScanStep(t, seqno, i, lseq, lseqi);
        if e.state == Done {
          if lseq < Age(seqno, e) {
            lseq := Age(seqno, e);
            lseqi := i;
          }
        }
        i := i + 1;
      }
      ScanEnds(t, seqno, lseq, lseqi);
      if table[lseqi].state != Done {
        return false, 0;
      }
      return true, lseqi;
    }

    /** Entry k, which nobody waits for, takes the request and sends its first query. */
    method Admit(k: nat, name: string, wanted: bool)
      requires Valid() && k < table.Length && (table[k].state == Unused || table[k].state == Done)
      modifies this, table
      ensures Valid() && log == old(log)
      ensures seqno == (old(seqno) + 1) % 256
      ensures requests == old(requests) + if wanted then 1 else 0
      ensures table[k].state == Asking && TicksLeft(c, table[k]) == (1 + ServersAfter(c, 0)) * ServerTicks(c)
      ensures table[k].found == if wanted then Some(old(requests)) else None
      ensures table[k].name == name[..if |name| < MAX_NAME then |name| else MAX_NAME - 1]
      ensures table[k].seqno == old(seqno)
      ensures forall j :: 0 <= j < table.Length && j != k ==> table[j] == old(table[j])
    {
      hide Owed, Called, Upto, Check, TimesOut, TicksLeft, ServersAfter, ServerTicks;
      var found := if wanted then Some(requests) else None;
      var e := table[k].(state := New, seqno := seqno, found := found,
                         name := name[..if |name| < MAX_NAME then |name| else MAX_NAME - 1]);
      ghost var owed, called, before := Owed(table[..]), Called(log), requests;
      Put(k, e);
      seqno := (seqno + 1) % 256;
      requests := requests + (if wanted then 1 else 0);
      EnqueueConserves(owed, Owed(table[..]), called, before, wanted);
      FirstTicks(c, e);
      CheckEntry(k);
    }

    /** `dns_enqueue`: accepted exactly if an entry is found. The request takes an entry that is
        unused or completed, so no request that waits is ever displaced. */
    method Enqueue(name: string, wanted: bool) returns (accepted: bool, k: nat)
      requires Valid()
      modifies this, table
      ensures Valid() && log == old(log)
      ensures accepted <==> CanChoose(old(table[..]), old(seqno))
      ensures !accepted ==> table[..] == old(table[..]) && requests == old(requests) && seqno == old(seqno)
      ensures accepted ==>
                && IsChoice(old(table[..]), old(seqno), k)
                && seqno == (old(seqno) + 1) % 256
                && requests == old(requests) + (if wanted then 1 else 0)
                && table[k].state == Asking && TicksLeft(c, table[k]) == (1 + ServersAfter(c, 0)) * ServerTicks(c)
                && table[k].found == (if wanted then Some(old(requests)) else None)
                && table[k].name == name[..if |name| < MAX_NAME then |name| else MAX_NAME - 1]
                && table[k].seqno == old(seqno)
      ensures forall j :: 0 <= j < table.Length && !(accepted && j == k) ==> table[j] == old(table[j])
      ensures forall j :: 0 <= j < table.Length && old(table[j]).state == Asking ==> table[j] == old(table[j])
    {
      hide *;
      var ok;
      ok, k := Choose();
      if !ok {
        return false, 0;
      }
      ChoiceIsFree(table[..], seqno, k);
      Admit(k, name, wanted);
      return true, k;
    }

    /** End the request of entry i: call back, and store the entry in its final state. */
    method Settle(i: nat, e: Entry, addr: Option<nat>)
      requires Valid() && i < table.Length && table[i].state == Asking
      requires e.state == Done || e.state == Unused
      modifies this`log, table
      ensures Valid()
      ensures table[i] == e && forall j :: 0 <= j < table.Length && j != i ==> table[j] == old(table[j])
      ensures log == old(log) + if old(table[i]).found.Some? then [Answer(old(table[i]).found.value, addr)] else []
    {
      hide Owed, Called, Upto, Made, OwedBy;
      ghost var owed, called, before := Owed(table[..]), Called(log), table[i];
      CallBack(i, addr);
      Put(i, e);
      Settled(before, e);
      Conserved(owed, Owed(table[..]), called, Called(log), OwedBy(before), OwedBy(e), Made(before));
    }

    /** `dns_recv`: an answer completes the request it names, an error ends it; both call back
        once. Anything else is ignored. */
    method Recv(r: Response)
      requires Valid()
      modifies this`log, table
      ensures Valid()
      ensures !(r.id < table.Length && old(table[r.id]).state == Asking) ==> log == old(log) && table[..] == old(table[..])
      ensures r.id < table.Length && old(table[r.id]).state == Asking ==>
                && (forall j :: 0 <= j < table.Length && j != r.id ==> table[j] == old(table[j]))
                && var e, a := old(table[r.id]), Outcome(r, old(table[r.id]).name);
                   && log == old(log) + (if e.found.Some? then [Answer(e.found.value, a)] else [])
                   && table[r.id].state == (if a.Some? then Done else Unused)
                   && table[r.id].seqno == e.seqno
                   && (a.Some? ==> table[r.id].ipaddr == a.value && table[r.id].ttl <= MAX_TTL)
    {
      hide Owed, Called, Upto, OwedBy, ValidEntry;
      if table.Length <= r.id || table[r.id].state != Asking {
        return;
      }
      var e := table[r.id];
      if !r.flagsOk || !r.matches(e.name) {
        Settle(r.id, e.(state := Unused, found := None), None);
        return;
      }
      var n := 0;
      while n < |r.answers|
        invariant n <= FirstAddress(r.answers)
        invariant Valid() && table[..] == old(table[..]) && log == old(log)
      {
        var record := r.answers[n];
        FirstAddressIsFirst(r.answers, n);
        if record.isAddress {
          var ttl := if MAX_TTL < record.ttl then MAX_TTL else record.ttl;
          Settle(r.id, e.(state := Done, ipaddr := record.addr, ttl := ttl), Some(record.addr));
          return;
        }
        n := n + 1;
      }
      Settle(r.id, e.(state := Unused, found := None), None);
    }
  }

  lemma Settled(e: Entry, e': Entry)
    requires e.state == Asking && (e'.state == Done || e'.state == Unused)
    ensures OwedBy(e) == OwedBy(e') + Made(e)
  {
  }

  lemma {:induction false} FirstAddressIsFirst(answers: seq<Record>, i: nat)
    requires i < |answers|
    ensures i < FirstAddress(answers) ==> !answers[i].isAddress
    ensures i <= FirstAddress(answers) && !answers[i].isAddress ==> i < FirstAddress(answers)
  {
    if 0 < i {
      FirstAddressIsFirst(answers[1..], i - 1);
    }
  }

  /** Every accepted request is called back at most once, and it waits in the table exactly as
      long as it was not called back. */
  lemma CalledBackOnce(resolver: Resolver, request: nat)
    requires resolver.Valid() && request < resolver.requests
    ensures Called(resolver.log)[request] + Owed(resolver.table[..])[request] == 1
  {
    UptoCount(resolver.requests, request);
    assert (Owed(resolver.table[..]) + Called(resolver.log))[request] == Upto(resolver.requests)[request];
  }

  /** The first record that is an IPv4 address, or the length. */
  function FirstAddress(answers: seq<Record>): (k: nat)
    ensures k <= |answers|
    ensures k < |answers| ==> answers[k].isAddress
  {
    if answers == [] || answers[0].isAddress then 0 else 1 + FirstAddress(answers[1..])
  }

  /** The address that a response gives to a request for name. */
  function Outcome(r: Response, name: string): (a: Option<nat>)
  {
    var k := FirstAddress(r.answers);
    if r.flagsOk && r.matches(name) && k < |r.answers| then Some(r.answers[k].addr) else None
  }

  lemma EnqueueConserves(owed: multiset<nat>, owed': multiset<nat>, called: multiset<nat>, n: nat, wanted: bool)
    requires owed + called == Upto(n)
    requires owed' == owed + if wanted then multiset{n} else multiset{}
    ensures owed' + called == Upto(n + if wanted then 1 else 0)
  {
    assert owed' + called == owed + called + if wanted then multiset{n} else multiset{};
  }

  lemma FirstTicks(c: Config, e: Entry)
    requires ValidConfig(c) && e.state == New
    ensures Check(c, e) == e.(state := Asking, numdns := 0, tmr := 1, retries := 0) && !TimesOut(c, e)
    ensures TicksLeft(c, Check(c, e)) == (1 + ServersAfter(c, 0)) * ServerTicks(c)
  {
    var k, p := ServersAfter(c, 0), ServerTicks(c);
    assert (1 + k) * p == p + k * p;
  }

  // ---------- From the request to the callback ----------

  /** What happens to a resolver. */
  datatype Event = Tick | Answered(r: Response) | Asked(name: string, wanted: bool)

  function TickCount(events: seq<Event>): (n: nat)
  {
    if events == [] then 0
    else TickCount(events[..|events| - 1]) + if events[|events| - 1].Tick? then 1 else 0
  }

  lemma {:induction false} CalledIn(log: seq<Answer>, a: Answer)
    requires a in log
    ensures 1 <= Called(log)[a.request]
  {
    var front := log[..|log| - 1];
    if a in front {
      CalledIn(front, a);
    }
  }

  lemma {:induction false} CalledGrows(log: seq<Answer>, log': seq<Answer>, q: nat)
    requires log <= log'
    ensures Called(log)[q] <= Called(log')[q]
    decreases |log'|
  {
    if |log| < |log'| {
      CalledGrows(log, log'[..|log'| - 1], q);
    } else {
      assert log == log';
    }
  }

  lemma CalledAtMostOnce(resolver: Resolver, q: nat)
    requires resolver.Valid()
    ensures Called(resolver.log)[q] <= 1
  {
    UptoCount(resolver.requests, q);
    assert (Owed(resolver.table[..]) + Called(resolver.log))[q] == Upto(resolver.requests)[q];
  }

  /** Request q has been called back, or waits in entry k with so many ticks left. */
  ghost predicate Pending(resolver: Resolver, k: nat, q: nat, left: int)
    reads resolver, resolver.table
  {
    || Called(resolver.log)[q] == 1
    || (&& k < resolver.table.Length
        && resolver.table[k].state == Asking
        && resolver.table[k].found == Some(q)
        && TicksLeft(resolver.c, resolver.table[k]) == left)
  }

  /** Any one event: a tick takes one off, nothing else does, and nothing forgets the request. */
  method Handle(resolver: Resolver, event: Event, ghost k: nat, ghost q: nat, ghost left: int)
    requires resolver.Valid() && Pending(resolver, k, q, left)
    modifies resolver, resolver.table
    ensures resolver.Valid() && old(resolver.log) <= resolver.log
    ensures Pending(resolver, k, q, if event.Tick? then left - 1 else left)
  {
    hide Called, TicksLeft, Check, TimesOut, Owed, Upto, Outcome;
    ghost var log := resolver.log;
    ghost var waiting := Called(log)[q] != 1;
    if waiting && event.Tick? {
      TickCountsDown(resolver.c, resolver.table[k]);
      SameCallback(resolver.c, resolver.table[k]);
    }
    match event {
      case Tick => resolver.CheckEntries();
      case Answered(r) => resolver.Recv(r);
      case Asked(name, wanted) =>
        var _, _ := resolver.Enqueue(name, wanted);
    }
    CalledGrows(log, resolver.log, q);
    CalledAtMostOnce(resolver, q);
    if a :| a in resolver.log && a.request == q {
      CalledIn(resolver.log, a);
    }
  }

  lemma SameCallback(c: Config, e: Entry)
    requires e.state == Asking
    ensures !TimesOut(c, e) ==> Check(c, e).found == e.found
  {
  }

  /** Any sequence of events. */
  method HandleAll(resolver: Resolver, events: seq<Event>, ghost k: nat, ghost q: nat, ghost left: int)
    requires resolver.Valid() && Pending(resolver, k, q, left)
    modifies resolver, resolver.table
    ensures resolver.Valid() && old(resolver.log) <= resolver.log
    ensures Pending(resolver, k, q, left - TickCount(events))
    decreases |events|
  {
    if events != [] {
      HandleAll(resolver, events[..|events| - 1], k, q, left);
      Handle(resolver, events[|events| - 1], k, q, left - TickCount(events[..|events| - 1]));
    }
  }

  /** Whatever happens in between, a request that waits is called back exactly once by the time its
      ticks have run out, and never again. */
  method Lifecycle(resolver: Resolver, events: seq<Event>, ghost k: nat, ghost q: nat)
    requires resolver.Valid() && k < resolver.table.Length
    requires resolver.table[k].state == Asking && resolver.table[k].found == Some(q)
    modifies resolver, resolver.table
    ensures resolver.Valid() && old(resolver.log) <= resolver.log
    ensures Called(resolver.log)[q] <= 1
    ensures old(TicksLeft(resolver.c, resolver.table[k])) <= TickCount(events) ==> Called(resolver.log)[q] == 1
  {
    ghost var left := TicksLeft(resolver.c, resolver.table[k]);
    HandleAll(resolver, events, k, q, left);
    TicksRunOut(resolver, k, q, left - TickCount(events));
  }

  lemma TicksRunOut(resolver: Resolver, k: nat, q: nat, left: int)
    requires resolver.Valid() && Pending(resolver, k, q, left)
    ensures Called(resolver.log)[q] <= 1
    ensures left <= 0 ==> Called(resolver.log)[q] == 1
  {
    CalledAtMostOnce(resolver, q);
    if Called(resolver.log)[q] != 1 {
      TickCountsDown(resolver.c, resolver.table[k]);
    }
  }

  // ---------- A completed entry that is missed ----------

  /** A request that takes entry 0, and the error that ends it. */
  method AskInVain(resolver: Resolver)
    requires resolver.Valid() && resolver.table.Length == 2
    requires resolver.table[0].state == Unused && resolver.table[1].state == Unused
    modifies resolver, resolver.table
    ensures resolver.Valid()
    ensures resolver.table[0].state == Unused && resolver.table[1].state == Unused
    ensures resolver.seqno == (old(resolver.seqno) + 1) % 256
  {
    hide Owed, Called, Upto, TicksLeft;
    assert resolver.table[..][0].state == Unused;
    var accepted, k := resolver.Enqueue("a", true);
    resolver.Recv(Response(0, false, name => true, []));
  }

  /** The run that leads there: 254 requests end in errors; one more waits in entry 0; the next one,
      with sequence number 255, is completed in entry 1. Then a request is refused although entry 1
      could be taken. */
  method MissedAfterWrap(c: Config) returns (resolver: Resolver, accepted: bool)
    requires ValidConfig(c)
    ensures resolver.Valid() && resolver.table.Length == 2
    ensures resolver.table[1].state == Done && !accepted
  {
    hide Owed, Called, Upto, TicksLeft;
    resolver := new Resolver(c, 2);
    var n := 0;
    while n < 254
      invariant n <= 254 && fresh(resolver) && fresh(resolver.table)
      invariant resolver.Valid() && resolver.table.Length == 2 && resolver.seqno == n
      invariant resolver.table[0].state == Unused && resolver.table[1].state == Unused
    {
      AskInVain(resolver);
      n := n + 1;
    }
    assert resolver.table[..][0].state == Unused;
    var k;
    accepted, k := resolver.Enqueue("a", true);
    assert k == 0;
    assert resolver.table[..][1].state == Unused;
    accepted, k := resolver.Enqueue("b", true);
    assert k == 1;
    var answer := Record(true, 60, 7);
    assert FirstAddress([answer]) == 0;
    resolver.Recv(Response(1, true, name => true, [answer]));
    assert resolver.table[..][0].state == Asking && resolver.table[..][1].seqno == 255;
    accepted, k := resolver.Enqueue("c", true);
  }
}

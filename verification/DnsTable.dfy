/** The resolver table of dns.c: requests, retries over several servers, answers. */
module DnsTable {
  import opened Common

  /** `DNS_MAX_RETRIES`, and for each of the `DNS_MAX_SERVERS` slots whether an address is set;
      the first server is. */
  datatype Config = Config(maxRetries: nat, servers: seq<bool>)

  predicate ValidConfig(c: Config)
  {
    0 < c.maxRetries < 256 && 0 < |c.servers| < 256 && c.servers[0]
  }

  const MAX_TTL := 604800

  datatype State = Unused | New | Asking | Done

  /** A table entry. The callback of a request is named by the number that the request got. */
  datatype Entry = Entry(
    state: State, numdns: nat, tmr: nat, retries: nat, seqno: nat, ttl: nat,
    name: string, ipaddr: nat, found: Option<nat>)

  /** A call of a callback: the request, and the address or NULL. */
  datatype Answer = Answer(request: nat, addr: Option<nat>)

  // ---------- dns_check_entry ----------

  /** Another server comes after this one. */
  predicate HasNextServer(c: Config, numdns: nat)
  {
    numdns + 1 < |c.servers| && c.servers[numdns + 1]
  }

  predicate ValidEntry(c: Config, e: Entry)
  {
    e.state == Asking ==> 0 < e.tmr < 256 && e.retries < c.maxRetries && e.numdns < |c.servers|
  }

  /** One timer tick for an entry. */
  function Check(c: Config, e: Entry): (r: Entry)
  {
    match e.state
    case New => e.(state := Asking, numdns := 0, tmr := 1, retries := 0)
    case Asking =>
      if e.tmr != 1 then e.(tmr := (e.tmr + 255) % 256)
      else if e.retries + 1 == c.maxRetries then
        if HasNextServer(c, e.numdns) then e.(numdns := e.numdns + 1, tmr := 1, retries := 0)
        else e.(state := Unused, tmr := 0, retries := e.retries + 1, found := None)
      else e.(tmr := (e.retries + 1) % 256, retries := (e.retries + 1) % 256)
    case Done =>
      if e.ttl == 1 then e.(state := Unused, ttl := 0, found := None)
      else e.(ttl := (e.ttl + 0xffff_ffff) % 0x1_0000_0000)
    case Unused => e
  }

  /** The tick gives up on the request. */
  predicate TimesOut(c: Config, e: Entry)
  {
    e.state == Asking && Check(c, e).state == Unused
  }

  // ---------- How long an unanswered request lasts ----------

  /** The waits before the retries that come after retry number `retries`. */
  function Waits(c: Config, retries: nat): (n: nat)
    decreases c.maxRetries - retries
  {
    if retries + 1 < c.maxRetries then retries + 1 + Waits(c, retries + 1) else 0
  }

  /** The ticks that one server gets. */
  function ServerTicks(c: Config): (n: nat)
  {
    1 + Waits(c, 0)
  }

  /** The servers that are set in a row from numdns + 1 on. */
  function ServersAfter(c: Config, numdns: nat): (n: nat)
    ensures numdns < |c.servers| ==> numdns + n < |c.servers|
    decreases |c.servers| - numdns
  {
    if HasNextServer(c, numdns) then 1 + ServersAfter(c, numdns + 1) else 0
  }

  /** The ticks that are left to an entry that waits for an answer. */
  function TicksLeft(c: Config, e: Entry): (n: nat)
  {
    e.tmr + Waits(c, e.retries) + ServersAfter(c, e.numdns) * ServerTicks(c)
  }

  lemma {:induction false} WaitsSum(c: Config, retries: nat)
    requires retries < c.maxRetries
    ensures 2 * Waits(c, retries) == c.maxRetries * (c.maxRetries - 1) - retries * (retries + 1)
    decreases c.maxRetries - retries
  {
    if retries + 1 < c.maxRetries {
      WaitsSum(c, retries + 1);
      assert (retries + 1) * (retries + 2) == retries * (retries + 1) + 2 * (retries + 1);
    } else {
      assert c.maxRetries * (c.maxRetries - 1) == (retries + 1) * retries;
    }
  }

  /** Each tick takes one off, and the entry is given up on exactly when none is left. */
  lemma TickCountsDown(c: Config, e: Entry)
    requires ValidConfig(c) && ValidEntry(c, e) && e.state == Asking
    ensures 0 < TicksLeft(c, e)
    ensures TimesOut(c, e) <==> TicksLeft(c, e) == 1
    ensures !TimesOut(c, e) ==>
              var r := Check(c, e);
              r.state == Asking && ValidEntry(c, r) && TicksLeft(c, r) == TicksLeft(c, e) - 1
  {
    hide ServerTicks;
    var k, p := ServersAfter(c, e.numdns), ServerTicks(c);
    OneLess(k, p);
    if e.tmr == 1 && e.retries + 1 == c.maxRetries && HasNextServer(c, e.numdns) {
      assert Check(c, e).tmr + Waits(c, 0) == p by { ServerTicksAre(c); }
    }
    assert 0 < p by { ServerTicksAre(c); }
  }

  lemma ServerTicksAre(c: Config)
    ensures ServerTicks(c) == 1 + Waits(c, 0)
  {
  }

  lemma OneLess(k: nat, p: nat)
    ensures 0 <= k * p
    ensures 0 < k ==> k * p == (k - 1) * p + p && 0 <= (k - 1) * p
  {
  }

  /** An entry after n ticks without an answer. */
  function Ticks(c: Config, e: Entry, n: nat): (r: Entry)
  {
    if n == 0 then e else Check(c, Ticks(c, e, n - 1))
  }

  lemma {:induction false} UnansweredFor(c: Config, e: Entry, n: nat)
    requires ValidConfig(c) && ValidEntry(c, e) && e.state == Asking
    requires n < TicksLeft(c, e)
    ensures var r := Ticks(c, e, n);
            r.state == Asking && ValidEntry(c, r) && TicksLeft(c, r) == TicksLeft(c, e) - n
  {
    if n != 0 {
      UnansweredFor(c, e, n - 1);
      TickCountsDown(c, Ticks(c, e, n - 1));
    }
  }

  /** A request that is never answered is given up on after exactly as many ticks as the servers
      in a row have together, each of them 1 + R(R - 1)/2 with R = `DNS_MAX_RETRIES`, and not
      before. This is at most `DNS_MAX_SERVERS` times that number. */
  lemma RequestTimesOut(c: Config, e: Entry)
    requires ValidConfig(c) && e.state == New
    ensures var asking, total := Check(c, e), (1 + ServersAfter(c, 0)) * ServerTicks(c);
            && 2 * ServerTicks(c) == 2 + c.maxRetries * (c.maxRetries - 1)
            && 1 <= total <= |c.servers| * ServerTicks(c)
            && TimesOut(c, Ticks(c, asking, total - 1))
            && forall n :: 0 <= n < total - 1 ==> !TimesOut(c, Ticks(c, asking, n))
  {
    var asking, k, p := Check(c, e), ServersAfter(c, 0), ServerTicks(c);
    WaitsSum(c, 0);
    assert (1 + k) * p == p + k * p;
    assert TicksLeft(c, asking) == (1 + k) * p;
    assert 0 <= k * p;
    assert (1 + k) * p <= |c.servers| * p by { Scaled(1 + k, |c.servers|, p); }
    forall n | 0 <= n < (1 + k) * p
      ensures TimesOut(c, Ticks(c, asking, n)) <==> n == (1 + k) * p - 1
    {
      UnansweredFor(c, asking, n);
      TickCountsDown(c, Ticks(c, asking, n));
    }
  }

  lemma Scaled(a: nat, b: nat, p: nat)
    requires a <= b
    ensures a * p <= b * p
  {
    assert (b - a) * p >= 0;
    assert b * p == a * p + (b - a) * p;
  }
}

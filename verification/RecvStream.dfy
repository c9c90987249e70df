/** `lwip_recvfrom` on a TCP socket: received pbufs become a byte stream. */
module RecvStream {
  import opened Common

  /** A received pbuf chain: its bytes (`tot_len` is 16 bits wide) and its PUSH flag. */
  datatype Pbuf = Pbuf(data: seq<byte>, push: bool)

  datatype Fetch = Got(p: Pbuf) | Closed | Failed

  /** What the rest of the stack answers during one round of the loop: `rcvevent` before the
      fetch, the result of `netconn_recv_tcp_pbuf`, and `rcvevent` after the copy. */
  datatype Round = Round(eventsBefore: int, fetch: Fetch, eventsAfter: int)

  predicate ValidRound(round: Round)
  {
    round.fetch.Got? ==> |round.fetch.p.data| <= 0xffff
  }

  predicate ValidRounds(rounds: seq<Round>)
  {
    forall i :: 0 <= i < |rounds| ==> ValidRound(rounds[i])
  }

  /** The answers of round i; behind the last one nothing more comes. */
  function RoundAt(rounds: seq<Round>, i: nat): (round: Round)
    ensures ValidRounds(rounds) ==> ValidRound(round)
  {
    if i < |rounds| then rounds[i] else Round(0, Failed, 0)
  }

  function Concat(ps: seq<Pbuf>): (r: seq<byte>)
  {
    if ps == [] then [] else Concat(ps[..|ps| - 1]) + ps[|ps| - 1].data
  }

  function Sum(ns: seq<nat>): (n: nat)
  {
    if ns == [] then 0 else Sum(ns[..|ns| - 1]) + ns[|ns| - 1]
  }

  lemma ConcatMore(ps: seq<Pbuf>, p: Pbuf)
    ensures Concat(ps + [p]) == Concat(ps) + p.data
  {
    assert (ps + [p])[..|ps|] == ps;
  }

  lemma SumMore(ns: seq<nat>, n: nat)
    ensures Sum(ns + [n]) == Sum(ns) + n
  {
    assert (ns + [n])[..|ns|] == ns;
  }

  lemma Joined(a: seq<byte>, b: seq<byte>, c: seq<byte>)
    ensures a + b + c == a + (b + c) && (b == [] ==> b + c == c)
  {
  }

  predicate Grown(a: seq<Pbuf>, b: seq<Pbuf>)
  {
    a <= b
  }

  lemma Further(a: seq<Pbuf>, b: seq<Pbuf>, c: seq<Pbuf>)
    requires b <= c || Grown(b, c)
    ensures Grown(b, c) && (Grown(a, b) ==> Grown(a, c))
  {
  }

  lemma Regroup(a: seq<byte>, b: seq<byte>, n: nat)
    requires n <= |b|
    ensures a + b[..n] + b[n..] == a + b
  {
    assert b == b[..n] + b[n..];
  }

  /** Result of a call: bytes, end of stream, or an error. */
  datatype Outcome = Bytes(mem: seq<byte>) | Eof | WouldBlock | Error

  class Socket {
    var lastdata: Option<Pbuf>
    var lastoffset: nat
    /** The lengths handed to `tcp_recved`, which take a `u16_t`. */
    var credits: seq<nat>

    ghost var fetched: seq<Pbuf>
    ghost var freed: seq<Pbuf>
    ghost var consumed: seq<byte>
    ghost var peeked: nat

    /** The bytes that were fetched and not yet consumed. */
    ghost function Pending(): (r: seq<byte>)
      reads this
    {
      if lastdata.Some? && lastoffset <= |lastdata.value.data| then lastdata.value.data[lastoffset..] else []
    }

    /** The consumed bytes and the pending ones are the received stream, and every fetched pbuf
        was freed, once and in order, except for the one kept in `lastdata`. */
    ghost predicate Streaming()
      reads this
    {
      && (lastdata.Some? ==> lastoffset <= |lastdata.value.data| <= 0xffff)
      && (lastdata.None? ==> lastoffset == 0)
      && fetched == freed + (if lastdata.Some? then [lastdata.value] else [])
      && consumed + Pending() == Concat(fetched)
      && forall i :: 0 <= i < |credits| ==> credits[i] <= 0xffff
    }

    /** Also, the window credit passed down is what was handed out to callers, peeked bytes
        included. */
    ghost predicate Valid()
      reads this
    {
      Streaming() && Sum(credits) == |consumed| + peeked
    }

    constructor ()
      ensures Valid()
      ensures consumed == [] && fetched == [] && freed == [] && peeked == 0
    {
      lastdata, lastoffset, credits := None, 0, [];
      fetched, freed, consumed, peeked := [], [], [], 0;
    }

    /** `netconn_recved`, carried out by `do_recv`: the credit is passed down in pieces. */
    method Recved(length: nat)
      requires forall i :: 0 <= i < |credits| ==> credits[i] <= 0xffff
      modifies this`credits
      ensures Sum(credits) == old(Sum(credits)) + length
      ensures forall i :: 0 <= i < |credits| ==> credits[i] <= 0xffff
      ensures old(credits) < credits
    {
      var remaining: nat := length;
      var first := true;
      while first || remaining != 0
        invariant remaining <= length
        invariant Sum(credits) + remaining == old(Sum(credits)) + length
        invariant forall i :: 0 <= i < |credits| ==> credits[i] <= 0xffff
        invariant if first then credits == old(credits) else old(credits) < credits
        decreases remaining, first
      {
        var recved := if 0xffff < remaining then 0xffff else remaining;
        SumMore(credits, recved);
        credits := credits + [recved];
        remaining := remaining - recved;
        first := false;
      }
    }

    /** Keep a newly fetched pbuf. */
    method Keep(p: Pbuf)
      requires Streaming() && lastdata.None? && |p.data| <= 0xffff
      modifies this`lastdata, this`fetched
      ensures Streaming() && lastdata == Some(p)
      ensures fetched == old(fetched) + [p]
    {
      ConcatMore(fetched, p);
      lastdata := Some(p);
      fetched := fetched + [p];
      assert p.data[0..] == p.data;
    }

    /** Take n bytes off the kept pbuf; free it when it is used up. */
    method Consume(n: nat)
      requires Streaming() && lastdata.Some? && lastoffset + n <= |lastdata.value.data|
      modifies this`lastdata, this`lastoffset, this`freed, this`consumed
      ensures Streaming() && old(freed) <= freed
      ensures consumed == old(consumed) + old(Pending())[..n]
      ensures Pending() == old(Pending())[n..]
      ensures lastdata.None? <==> n == |old(Pending())|
    {
      hide Concat, Sum;
      var p := lastdata.value;
      ghost var rest := p.data[lastoffset..];
      Regroup(consumed, rest, n);
      assert rest[n..] == p.data[lastoffset + n..];
      consumed := consumed + rest[..n];
      if 0 < |p.data| - lastoffset - n {
        lastoffset := lastoffset + n;
      } else {
        freed := freed + [p];
        lastdata := None;
        lastoffset := 0;
      }
    }

    /** Copy up to left bytes out of the kept pbuf; unless peeking, they are consumed. */
    method CopyOut(left: nat, peek: bool) returns (chunk: seq<byte>, push: bool)
      requires Streaming() && lastdata.Some?
      modifies this`lastdata, this`lastoffset, this`freed, this`consumed
      ensures Streaming() && old(freed) <= freed
      ensures chunk <= old(Pending()) && |chunk| == if |old(Pending())| < left then |old(Pending())| else left
      ensures if peek then unchanged(this)
              else consumed == old(consumed) + chunk && (|chunk| < left ==> lastdata.None?)
    {
      var p := lastdata.value;
      push := p.push;
      var buflen := |p.data| - lastoffset;
      var copylen := if buflen < left then buflen else left;
      chunk := p.data[lastoffset..lastoffset + copylen];
      assert chunk == Pending()[..copylen];
      if !peek {
        Consume(copylen);
      }
    }

    /** Nothing is kept, and this round fetches nothing. */
    predicate Blocked(dontwait: bool, round: Round)
      reads this`lastdata
    {
      lastdata.None? && ((dontwait && round.eventsBefore <= 0) || !round.fetch.Got?)
    }

    /** Fetch a pbuf if none is kept, and copy out of it. */
    method OneRound(left: nat, dontwait: bool, peek: bool, round: Round) returns (chunk: seq<byte>, push: bool)
      requires Streaming() && !Blocked(dontwait, round) && ValidRound(round)
      modifies this`lastdata, this`lastoffset, this`fetched, this`freed, this`consumed
      ensures Streaming() && Grown(old(fetched), fetched) && Grown(old(freed), freed)
      ensures |chunk| <= left && (old(Pending()) != [] && 0 < left ==> chunk != [])
      ensures peek ==> consumed == old(consumed) && chunk <= Pending()
      ensures peek && old(lastdata).Some? ==> lastdata == old(lastdata) && lastoffset == old(lastoffset)
      ensures !peek ==> consumed == old(consumed) + chunk && (|chunk| < left ==> Pending() == [])
    {
      hide Concat, Sum;
      if lastdata.None? {
        Keep(round.fetch.p);
      }
      chunk, push := CopyOut(left, peek);
    }

    /** The loop of `lwip_recvfrom`: the bytes copied; and, if a round was blocked, what to return if
        there are none. */
    method Receive(len: nat, dontwait: bool, peek: bool, rounds: seq<Round>) returns (mem: seq<byte>, why: Option<Outcome>)
      requires Streaming() && ValidRounds(rounds)
      modifies this`lastdata, this`lastoffset, this`fetched, this`freed, this`consumed
      ensures Streaming() && Grown(old(fetched), fetched) && Grown(old(freed), freed)
      ensures |mem| <= len && (why.Some? ==> !why.value.Bytes?)
      ensures old(Pending()) != [] && 0 < len ==> mem != []
      ensures peek ==> consumed == old(consumed) && mem <= Pending()
      ensures peek && old(lastdata).Some? ==> lastdata == old(lastdata) && lastoffset == old(lastoffset)
      ensures !peek ==> consumed == old(consumed) + mem && (|mem| < len ==> Pending() == [])
    {
      mem, why := [], None;
      var left: nat := len;
      var done := false;
      var i := 0;
      while !done
        invariant Streaming() && Grown(old(fetched), fetched) && Grown(old(freed), freed)
        invariant |mem| + left == len && (i == 0 ==> !done)
        invariant peek ==> consumed == old(consumed) && mem <= Pending() && (!done ==> mem == [])
        invariant !peek ==> consumed == old(consumed) + mem && (done && 0 < left ==> Pending() == [])
        invariant old(lastdata).Some? && (peek || i == 0) ==> lastdata == old(lastdata) && lastoffset == old(lastoffset)
        invariant old(Pending()) != [] && 0 < len && 0 < i ==> mem != []
        invariant i <= |rounds| + 1 && (i == |rounds| + 1 ==> done)
        decreases |rounds| + 1 - i, !done
      {
        hide Streaming, ValidRounds, ValidRound, Grown;
        var round := RoundAt(rounds, i);
        if Blocked(dontwait, round) {
          why := Some(if dontwait && round.eventsBefore <= 0 then WouldBlock
                      else if round.fetch.Closed? then Eof
                      else Error);
          return;
        }
        i := i + 1;
        ghost var f, g := fetched, freed;
        var chunk, push := OneRound(left, dontwait, peek, round);
        Further(old(fetched), f, fetched);
        Further(old(freed), g, freed);
        Joined(old(consumed), mem, chunk);
        mem := mem + chunk;
        left := left - |chunk|;
        done := left == 0 || push || round.eventsAfter <= 0 || peek;
      }
    }

    /** `lwip_recvfrom` of a TCP socket. */
    method RecvFrom(len: nat, dontwait: bool, peek: bool, rounds: seq<Round>) returns (out: Outcome)
      requires Valid() && ValidRounds(rounds)
      modifies this
      ensures Valid()
      ensures old(fetched) <= fetched && old(freed) <= freed
      ensures out.Bytes? ==> |out.mem| <= len
      ensures !out.Bytes? ==> consumed == old(consumed) && peeked == old(peeked)
      ensures out.Bytes? && !peek ==> consumed == old(consumed) + out.mem && peeked == old(peeked)
      ensures out.Bytes? && peek ==> consumed == old(consumed) && peeked == old(peeked) + |out.mem|
                                     && out.mem <= Pending()
      ensures out.Bytes? && !peek && |out.mem| < len ==> Pending() == []
      ensures old(Pending()) != [] && 0 < len ==> out.Bytes? && out.mem != []
      ensures old(lastdata).Some? && peek ==> lastdata == old(lastdata) && lastoffset == old(lastoffset)
    {
      hide Concat, Sum;
      var mem, why := Receive(len, dontwait, peek, rounds);
      if why.Some? && mem == [] {
        return why.value;
      }
      if 0 < |mem| {
        Recved(|mem|);
      }
      if peek {
        peeked := peeked + |mem|;
      }
      return Bytes(mem);
    }
  }

  datatype Call = Call(len: nat, dontwait: bool, rounds: seq<Round>)

  /** Any sequence of reads without MSG_PEEK returns a prefix of the received stream, in order and
      without gap or repeat, and passes down exactly that much window credit. */
  method Session(sock: Socket, calls: seq<Call>) returns (out: seq<byte>)
    requires sock.Valid() && sock.consumed == [] && sock.peeked == 0
    requires forall i :: 0 <= i < |calls| ==> ValidRounds(calls[i].rounds)
    modifies sock
    ensures sock.Valid()
    ensures out <= Concat(sock.fetched)
    ensures Sum(sock.credits) == |out|
    ensures sock.fetched == sock.freed + (if sock.lastdata.Some? then [sock.lastdata.value] else [])
    ensures out == Concat(sock.fetched) <==> sock.Pending() == []
  {
    out := [];
    var n := 0;
    while n < |calls|
      invariant n <= |calls|
      invariant sock.Valid() && sock.consumed == out && sock.peeked == 0
    {
      var r := sock.RecvFrom(calls[n].len, calls[n].dontwait, false, calls[n].rounds);
      if r.Bytes? {
        out := out + r.mem;
      }
      n := n + 1;
    }
  }

  lemma {:induction false} ConcatGrows(ps: seq<Pbuf>, qs: seq<Pbuf>)
    requires ps <= qs
    ensures Concat(ps) <= Concat(qs)
    decreases |qs|
  {
    if |ps| < |qs| {
      ConcatGrows(ps, qs[..|qs| - 1]);
    } else {
      assert ps == qs;
    }
  }

  /** Peeking at the first byte and then reading it passes down credit for two. */
  method PeekedTwice(sock: Socket) returns (first: Outcome, second: Outcome)
    requires sock.Valid() && sock.Pending() != []
    modifies sock
    ensures sock.Valid() && first == second == Bytes([old(sock.Pending())[0]])
    ensures sock.consumed == old(sock.consumed) + second.mem
    ensures Sum(sock.credits) == old(Sum(sock.credits)) + 2
  {
    hide Sum, Concat;
    ghost var before, byte0 := sock.consumed, sock.Pending()[0];
    first := sock.RecvFrom(1, false, true, []);
    ghost var fetched, rest := sock.fetched, sock.Pending();
    second := sock.RecvFrom(1, false, false, []);
    ConcatGrows(fetched, sock.fetched);
    assert Concat(sock.fetched)[|before|] == (before + rest)[|before|] == byte0;
    assert (before + second.mem + sock.Pending())[|before|] == second.mem[0];
  }
}

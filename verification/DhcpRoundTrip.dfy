/** Parsing a written list of options gives every recognised option the value of its first
    occurrence. */
module DhcpRoundTrip {
  import opened Common
  import opened DhcpOptions

  // ---------- The options in the message ----------

  /** The message has the options, and the end mark, from p on. */
  ghost predicate Holds(m: seq<byte>, p: nat, items: seq<Item>)
    decreases |items|
  {
    && p < |m|
    && if items == [] then m[p] == END
       else
         match items[0]
         case Pad => m[p] == PAD && Holds(m, p + 1, items[1..])
         case Opt(code, data) =>
           var q := p + 2 + |data|;
           && q <= |m|
           && m[p] == code && m[p + 1] == |data|
           && m[p + 2..q] == data
           && Holds(m, q, items[1..])
  }

  /** The bytes stand in the message at p. */
  predicate At(m: seq<byte>, p: nat, bytes: seq<byte>)
  {
    p + |bytes| <= |m| && m[p..p + |bytes|] == bytes
  }

  lemma Front(m: seq<byte>, p: nat, a: seq<byte>, b: seq<byte>)
    requires At(m, p, a + b)
    ensures At(m, p, a) && At(m, p + |a|, b)
  {
    var n := |a + b|;
    assert m[p..p + n] == m[p..p + |a|] + m[p + |a|..p + n];
    assert a == (a + b)[..|a|] == m[p..p + |a|];
    assert b == (a + b)[|a|..] == m[p + |a|..p + n];
  }

  lemma {:induction false} HoldsEncoding(m: seq<byte>, p: nat, items: seq<Item>)
    requires Proper(items) && At(m, p, Encode(items) + [END])
    ensures Holds(m, p, items)
    decreases |items|
  {
    hide *;
    if items == [] {
      HoldsEnd(m, p);
    } else {
      EncodeFirst(items);
      var first, rest := EncodeItem(items[0]), Encode(items[1..]) + [END];
      Front(m, p, first, rest);
      HoldsEncoding(m, p + |first|, items[1..]);
      HoldsMore(m, p, items);
    }
  }

  lemma HoldsEnd(m: seq<byte>, p: nat)
    requires At(m, p, Encode([]) + [END])
    ensures Holds(m, p, [])
  {
    assert m[p] == m[p..p + 1][0];
  }

  lemma EncodeFirst(items: seq<Item>)
    requires Proper(items) && items != []
    ensures ProperItem(items[0]) && Proper(items[1..])
    ensures Encode(items) + [END] == EncodeItem(items[0]) + (Encode(items[1..]) + [END])
  {
    hide EncodeItem;
    assert Encode(items) == EncodeItem(items[0]) + Encode(items[1..]);
  }

  lemma HoldsMore(m: seq<byte>, p: nat, items: seq<Item>)
    requires items != [] && ProperItem(items[0]) && At(m, p, EncodeItem(items[0]))
    requires Holds(m, p + |EncodeItem(items[0])|, items[1..])
    ensures Holds(m, p, items)
  {
    ItemThere(m, p, items[0]);
    assert items[0].Opt? ==> |EncodeItem(items[0])| == 2 + |items[0].data|;
  }

  lemma ItemThere(m: seq<byte>, p: nat, item: Item)
    requires ProperItem(item) && At(m, p, EncodeItem(item))
    ensures item.Pad? ==> m[p] == PAD
    ensures item.Opt? ==> && m[p] == item.code && m[p + 1] == |item.data|
                          && m[p + 2..p + 2 + |item.data|] == item.data
  {
    var e := EncodeItem(item);
    var here := m[p..p + |e|];
    assert m[p] == here[0];
    if item.Opt? {
      assert m[p + 1] == here[1];
      assert m[p + 2..p + 2 + |item.data|] == here[2..];
      assert e[2..] == item.data;
    }
  }

  // ---------- One option ----------

  /** The values in a piece of data. */
  function DecodeData(data: seq<byte>, slot: nat, vals: Values): (r: Values)
    requires data != [] ==> Room(|data|, slot, vals)
    ensures |r| == |vals|
    decreases |data|
  {
    if data == [] || vals[slot].Some? then vals
    else if 4 < |data| then DecodeData(data[4..], slot + 1, vals[slot := Some(BigEndian(data[..4]))])
    else if |data| == 4 then vals[slot := Some(BigEndian(data))]
    else vals[slot := Some(data[0])]
  }

  lemma CopyWhole(value: seq<byte>, m: seq<byte>, n: nat, p: nat)
    requires |value| == 4 && n <= 4 && p + n <= |m|
    ensures CopyPartial(value, m, n, p)[..n] == m[p..p + n]
  {
  }

  /** As long as the message has all of the data, what was read before does not show through. */
  lemma {:induction false} DecodesData(m: seq<byte>, data: seq<byte>, p: nat, value: seq<byte>, slot: nat, vals: Values)
    requires |value| == 4 && (data != [] ==> Room(|data|, slot, vals))
    requires At(m, p, data)
    ensures Decode(m, |data|, p, value, slot, vals) == DecodeData(data, slot, vals)
    decreases |data|
  {
    hide BigEndian;
    if data == [] || vals[slot].Some? {
      return;
    }
    var n := |data|;
    var k := if n < 4 then n else 4;
    var read := CopyPartial(value, m, k, p);
    assert data == data[..k] + data[k..];
    Front(m, p, data[..k], data[k..]);
    CopyWhole(value, m, k, p);
    hide CopyPartial;
    if 4 < n {
      assert read == data[..4];
      DecodesData(m, data[4..], p + 4, read, slot + 1, vals[slot := Some(BigEndian(read))]);
    } else if n == 4 {
      assert read == data;
    } else {
      assert read[0] == read[..1][0] == data[0];
    }
  }

  /** An option, from its data alone. */
  function ApplyOption(code: byte, data: seq<byte>, servers: Servers, vals: Values): (r: Values)
    requires SizeOk(code, |data|) && |vals| == DNS_SLOT + servers
    ensures |r| == |vals|
  {
    if Slot(code).None? then vals
    else
      DecodeFits(code, |data|, servers, vals);
      DecodeData(data[..DecodeLen(code, |data|, servers)], Slot(code).value, vals)
  }

  lemma OptionDecoded(m: seq<byte>, code: byte, data: seq<byte>, p: nat, servers: Servers, vals: Values)
    requires SizeOk(code, |data|) && |vals| == DNS_SLOT + servers
    requires At(m, p, data)
    ensures DecodeOption(m, code, |data|, p, servers, vals) == ApplyOption(code, data, servers, vals)
  {
    if Slot(code).Some? {
      DecodeFits(code, |data|, servers, vals);
      var n := DecodeLen(code, |data|, servers);
      assert data == data[..n] + data[n..];
      Front(m, p, data[..n], data[n..]);
      DecodesData(m, data[..n], p, ZERO, Slot(code).value, vals);
    }
  }

  // ---------- All options ----------

  function Apply(items: seq<Item>, servers: Servers, vals: Values): (r: Values)
    requires Sized(items) && |vals| == DNS_SLOT + servers
    ensures |r| == |vals|
    decreases |items|
  {
    if items == [] then vals
    else
      match items[0]
      case Pad => Apply(items[1..], servers, vals)
      case Opt(code, data) => Apply(items[1..], servers, ApplyOption(code, data, servers, vals))
  }

  /** The parser accepts a list exactly if every recognised option has a proper length. */
  lemma {:induction false} ScanReads(m: seq<byte>, p: nat, items: seq<Item>, servers: Servers, vals: Values)
    requires Proper(items) && Holds(m, p, items) && |vals| == DNS_SLOT + servers
    ensures Scan(m, p, servers, vals) == if Sized(items) then Some(Apply(items, servers, vals)) else None
    decreases |items|
  {
    hide DecodeOption, ApplyOption;
    if items != [] {
      assert ProperItem(items[0]);
      SizedFirst(items);
      match items[0] {
        case Pad =>
          ScanReads(m, p + 1, items[1..], servers, vals);
        case Opt(code, data) =>
          if SizeOk(code, |data|) {
            OptionDecoded(m, code, data, p + 2, servers, vals);
            ScanReads(m, p + 2 + |data|, items[1..], servers, ApplyOption(code, data, servers, vals));
          }
      }
    }
  }

  lemma SizedFirst(items: seq<Item>)
    requires items != []
    ensures Sized(items) <==> (items[0].Opt? ==> SizeOk(items[0].code, |items[0].data|)) && Sized(items[1..])
  {
    if (items[0].Opt? ==> SizeOk(items[0].code, |items[0].data|)) && Sized(items[1..]) {
      forall i | 0 <= i < |items| && items[i].Opt?
        ensures SizeOk(items[i].code, |items[i].data|)
      {
        assert 0 < i ==> items[i] == items[1..][i - 1];
      }
    }
  }

  // ---------- The first occurrence counts ----------

  /** No server is known unless the first one is. */
  predicate Closed(vals: Values)
  {
    DNS_SLOT < |vals| && (vals[DNS_SLOT].None? ==> forall i :: DNS_SLOT <= i < |vals| ==> vals[i].None?)
  }

  /** The values land in consecutive places. */
  lemma {:induction false} DataLands(data: seq<byte>, slot: nat, vals: Values, i: nat)
    requires data != [] && |data| % 4 == 0 && Room(|data|, slot, vals)
    requires forall j :: slot <= j < |vals| ==> vals[j].None?
    requires i < |vals|
    ensures DecodeData(data, slot, vals)[i] ==
            if i < slot then vals[i]
            else if 4 * (i - slot) + 4 <= |data| then Some(BigEndian(data[4 * (i - slot)..4 * (i - slot) + 4]))
            else None
    decreases |data|
  {
    hide BigEndian;
    if 4 < |data| {
      var vals' := vals[slot := Some(BigEndian(data[..4]))];
      assert DecodeData(data, slot, vals) == DecodeData(data[4..], slot + 1, vals');
      DataLands(data[4..], slot + 1, vals', i);
      hide DecodeData;
      if slot < i && 4 * (i - slot) + 4 <= |data| {
        Tail(data, 4 * (i - slot));
      }
    } else {
      assert data[0..4] == data;
    }
  }

  lemma Tail(data: seq<byte>, k: nat)
    requires 4 <= k && k + 4 <= |data|
    ensures data[4..][k - 4..k] == data[k..k + 4]
  {
    assert data[4..][k - 4..] == data[k..];
    assert data[4..][k - 4..k] == data[4..][k - 4..][..4];
    assert data[k..k + 4] == data[k..][..4];
  }

  /** One option fills the places for its code, unless they have been filled. */
  lemma OptionLands(code: byte, data: seq<byte>, servers: Servers, vals: Values, i: nat)
    requires SizeOk(code, |data|) && |vals| == DNS_SLOT + servers && Closed(vals) && i < |vals|
    ensures ApplyOption(code, data, servers, vals)[i] ==
            if CodeFor(i) == code && data != [] && vals[Head(i)].None? then ValueIn(data, i) else vals[i]
  {
    if Slot(code).None? {
      return;
    }
    var slot, n := Slot(code).value, DecodeLen(code, |data|, servers);
    DecodeFits(code, |data|, servers, vals);
    var part := data[..n];
    if data != [] && vals[slot].None? {
      if code == DNS_SERVER {
        DataLands(part, slot, vals, i);
        if DNS_SLOT <= i {
          var k := 4 * (i - DNS_SLOT);
          assert k + 4 <= n ==> part[k..k + 4] == data[k..k + 4];
        }
      } else if 4 <= n {
        assert part == data[..4];
      }
    }
  }

  lemma OptionKeepsClosed(code: byte, data: seq<byte>, servers: Servers, vals: Values)
    requires SizeOk(code, |data|) && |vals| == DNS_SLOT + servers && Closed(vals)
    ensures Closed(ApplyOption(code, data, servers, vals))
  {
    hide ApplyOption;
    var r := ApplyOption(code, data, servers, vals);
    if r[DNS_SLOT].None? {
      OptionLands(code, data, servers, vals, DNS_SLOT);
      forall i | DNS_SLOT <= i < |r|
        ensures r[i].None?
      {
        OptionLands(code, data, servers, vals, i);
      }
    }
  }

  lemma {:induction false} ApplyIsFirst(items: seq<Item>, servers: Servers, vals: Values, i: nat)
    requires Sized(items) && |vals| == DNS_SLOT + servers && Closed(vals) && i < |vals|
    ensures Apply(items, servers, vals)[i] == if vals[Head(i)].Some? then vals[i] else Meaning(items, i)
    decreases |items|
  {
    hide ApplyOption;
    if items != [] {
      if items[0].Pad? {
        ApplyIsFirst(items[1..], servers, vals, i);
      } else {
        var code, data := items[0].code, items[0].data;
        var vals' := ApplyOption(code, data, servers, vals);
        OptionLands(code, data, servers, vals, i);
        OptionLands(code, data, servers, vals, Head(i));
        OptionKeepsClosed(code, data, servers, vals);
        ApplyIsFirst(items[1..], servers, vals', i);
      }
    }
  }

  /** Nothing received, as after `dhcp_clear_all_options`. */
  function Cleared(servers: Servers): (vals: Values)
    ensures |vals| == DNS_SLOT + servers
  {
    seq(DNS_SLOT + servers, i => None)
  }

  /** The whole round trip, for any list of options and anything behind the end mark: the parser
      fails exactly if a recognised option has a wrong length, and otherwise every place holds what
      the first option with its code says. */
  lemma RoundTrip(m: seq<byte>, p: nat, items: seq<Item>, servers: Servers)
    requires Proper(items) && At(m, p, Encode(items) + [END])
    ensures Scan(m, p, servers, Cleared(servers)).Some? <==> Sized(items)
    ensures Sized(items) ==>
              forall i :: 0 <= i < DNS_SLOT + servers ==>
                Scan(m, p, servers, Cleared(servers)).value[i] == Meaning(items, i)
  {
    hide Scan, Apply, Encode, Holds, Meaning;
    var vals := Cleared(servers);
    HoldsEncoding(m, p, items);
    ScanReads(m, p, items, servers, vals);
    if Sized(items) {
      forall i | 0 <= i < DNS_SLOT + servers
        ensures Apply(items, servers, vals)[i] == Meaning(items, i)
      {
        ApplyIsFirst(items, servers, vals, i);
      }
    }
  }
}

/** The option writer and the parser of `dhcp.c`, with the buffers they work on. */
module Dhcp {
  import opened Common
  import opened DhcpOptions
  import opened DhcpRoundTrip

  const HOSTNAME: byte := 12

  /** `DHCP_MIN_OPTIONS_LEN`; the options field is at least that long. */
  const MIN_OPTIONS := 68

  type u16 = x: int | 0 <= x < 0x1_0000
  type u32 = x: int | 0 <= x < 0x1_0000_0000

  // ---------- Values as bytes ----------

  datatype Value = Byte(b: byte) | Short(s: u16) | Long(l: u32)

  function ValueBytes(v: Value): (r: seq<byte>)
  {
    match v
    case Byte(b) => [b]
    case Short(s) => [s / 0x100, s % 0x100]
    case Long(l) => [l / 0x100_0000, l / 0x1_0000 % 0x100, l / 0x100 % 0x100, l % 0x100]
  }

  function Data(values: seq<Value>): (r: seq<byte>)
  {
    if values == [] then [] else ValueBytes(values[0]) + Data(values[1..])
  }

  /** A long value is read back as it was. */
  lemma LongRoundTrip(l: u32)
    ensures BigEndian(ValueBytes(Long(l))) == l
  {
    var a, b, c := l / 0x100_0000, l / 0x1_0000, l / 0x100;
    assert c == b * 0x100 + c % 0x100;
    assert b == a * 0x100 + b % 0x100;
  }

  datatype Out = Out(code: byte, values: seq<Value>)

  predicate ProperOut(out: Out)
  {
    out.code != PAD && out.code != END && |Data(out.values)| < 256
  }

  function ItemOf(out: Out): (item: Item)
    requires ProperOut(out)
    ensures ProperItem(item)
  {
    Opt(out.code, Data(out.values))
  }

  function Items(outs: seq<Out>): (items: seq<Item>)
    requires forall i :: 0 <= i < |outs| ==> ProperOut(outs[i])
    ensures |items| == |outs| && Proper(items)
  {
    if outs == [] then []
    else
      var n := |outs| - 1;
      assert ProperOut(outs[n]);
      Items(outs[..n]) + [ItemOf(outs[n])]
  }

  // ---------- The writer ----------

  /** `msg_out->options` and `options_out_len`. */
  class Message {
    const options: array<byte>
    var outLen: nat

    ghost predicate Valid()
      reads this, options
    {
      MIN_OPTIONS <= options.Length && outLen <= options.Length
    }

    ghost function Written(): (s: seq<byte>)
      requires Valid()
      reads this, options
    {
      options[..outLen]
    }

    /** `dhcp_create_msg`: the field has the length `DHCP_OPTIONS_LEN` and nothing is written. */
    constructor (length: nat)
      requires MIN_OPTIONS <= length
      ensures Valid() && Written() == [] && options.Length == length && fresh(options)
    {
      options := new byte[length];
      outLen := 0;
    }

    method PutByte(b: byte)
      requires Valid() && outLen < options.Length
      modifies this, options
      ensures Valid() && Written() == old(Written()) + [b] && outLen == old(outLen) + 1
    {
      options[outLen] := b;
      outLen := outLen + 1;
    }

    /** `dhcp_option`: code and length; the caller has room for the data as well. */
    method Header(code: byte, len: byte)
      requires Valid() && outLen + 2 + len <= options.Length
      modifies this, options
      ensures Valid() && Written() == old(Written()) + [code, len] && outLen == old(outLen) + 2
    {
      PutByte(code);
      PutByte(len);
    }

    /** `dhcp_option_byte`, `dhcp_option_short` and `dhcp_option_long`. */
    method Put(v: Value)
      requires Valid() && outLen + |ValueBytes(v)| <= options.Length
      modifies this, options
      ensures Valid() && Written() == old(Written()) + ValueBytes(v)
      ensures outLen == old(outLen) + |ValueBytes(v)|
    {
      match v {
        case Byte(b) =>
          PutByte(b);
        case Short(s) =>
          PutByte(s / 0x100);
          PutByte(s % 0x100);
        case Long(l) =>
          PutByte(l / 0x100_0000);
          PutByte(l / 0x1_0000 % 0x100);
          PutByte(l / 0x100 % 0x100);
          PutByte(l % 0x100);
      }
    }

    method PutAll(values: seq<Value>)
      requires Valid() && outLen + |Data(values)| <= options.Length
      modifies this, options
      ensures Valid() && Written() == old(Written()) + Data(values)
      ensures outLen == old(outLen) + |Data(values)|
    {
      hide Data, ValueBytes;
      ghost var start := Written();
      assert Data(values[..0]) == [] by { NoData(values); }
      for i := 0 to |values|
        invariant Valid() && Written() == start + Data(values[..i])
      {
        DataNext(values, i);
        Put(values[i]);
      }
      assert values[..|values|] == values;
    }

    /** One option with all its values. */
    method WriteOption(out: Out)
      requires Valid() && ProperOut(out) && outLen + 2 + |Data(out.values)| <= options.Length
      modifies this, options
      ensures Valid() && Written() == old(Written()) + EncodeItem(ItemOf(out))
    {
      hide Data;
      ghost var was, data := Written(), Data(out.values);
      assert EncodeItem(ItemOf(out)) == [out.code, |data|] + data;
      hide EncodeItem, ItemOf;
      Header(out.code, |Data(out.values)|);
      PutAll(out.values);
      assert was + [out.code, |data|] + data == was + ([out.code, |data|] + data);
    }

    /** A message as the `dhcp_*` requests write it: the options and the trailer. */
    method Write(outs: seq<Out>)
      requires Valid() && outLen == 0
      requires forall i :: 0 <= i < |outs| ==> ProperOut(outs[i])
      requires |Encode(Items(outs))| < options.Length
      modifies this, options
      ensures Valid()
      ensures Encode(Items(outs)) + [END] <= Written()
      ensures forall i :: |Encode(Items(outs))| < i < outLen ==> options[i] == PAD
      ensures (MIN_OPTIONS <= outLen && outLen % 4 == 0) || outLen == options.Length
    {
      hide Encode, EncodeItem, Items, ItemOf;
      assert Encode(Items(outs[..0])) == [] by { NoItems(outs); }
      for i := 0 to |outs|
        invariant Valid() && Written() == Encode(Items(outs[..i]))
      {
        ItemsNext(outs, i);
        WriteOption(outs[i]);
      }
      assert outs[..|outs|] == outs;
      Trailer();
    }

    /** `dhcp_option_hostname`: as much of the name as leaves room for the trailer. */
    method Hostname(name: seq<byte>)
      requires Valid() && outLen + 3 <= options.Length
      modifies this, options
      ensures Valid() && outLen < options.Length
      ensures var len := (if |name| <= options.Length - old(outLen) - 3 then |name| else options.Length - old(outLen) - 3) % 256;
              Written() == old(Written()) + if name == [] then [] else EncodeItem(Opt(HOSTNAME, name[..len]))
    {
      if 0 < |name| {
        var available := options.Length - outLen - 3;
        var len: byte := (if |name| <= available then |name| else available) % 256;
        ghost var was := Written();
        assert EncodeItem(Opt(HOSTNAME, name[..len])) == [HOSTNAME, len] + name[..len];
        hide EncodeItem;
        Header(HOSTNAME, len);
        ghost var start := Written();
        for i := 0 to len
          invariant Valid() && Written() == start + name[..i] && outLen == |start| + i
        {
          PutByte(name[i]);
        }
        assert start + name[..len] == was + ([HOSTNAME, len] + name[..len]);
      }
    }

    /** `dhcp_option_trailer`: the end mark, and padding to the smallest length allowed and to a
        multiple of four, as far as there is room. */
    method Trailer()
      requires Valid() && outLen < options.Length
      modifies this, options
      ensures Valid() && old(outLen) < outLen
      ensures Written() == old(Written()) + [END] + seq(outLen - old(outLen) - 1, i => PAD)
      ensures (MIN_OPTIONS <= outLen && outLen % 4 == 0) || outLen == options.Length
    {
      PutByte(END);
      ghost var start := Written();
      while (outLen < MIN_OPTIONS || outLen % 4 != 0) && outLen < options.Length
        invariant Valid() && |start| <= outLen
        invariant Written() == start + seq(outLen - |start|, i => PAD)
        decreases options.Length - outLen
      {
        PutByte(0);
      }
    }
  }

  lemma NoData(values: seq<Value>)
    ensures Data(values[..0]) == []
  {
  }

  lemma NoItems(outs: seq<Out>)
    ensures Encode(Items(outs[..0])) == []
  {
  }

  /** One more option: how far it goes, and that it fits if the whole list does. */
  lemma ItemsNext(outs: seq<Out>, i: nat)
    requires i < |outs| && forall j :: 0 <= j < |outs| ==> ProperOut(outs[j])
    ensures Encode(Items(outs[..i + 1])) == Encode(Items(outs[..i])) + EncodeItem(ItemOf(outs[i]))
    ensures |EncodeItem(ItemOf(outs[i]))| == 2 + |Data(outs[i].values)|
    ensures |Encode(Items(outs[..i + 1]))| <= |Encode(Items(outs))|
  {
    var front := outs[..i + 1];
    assert front[..i] == outs[..i] && front[i] == outs[i];
    EncodeMore(Items(outs[..i]), ItemOf(outs[i]));
    ItemsGrow(outs, i + 1);
  }

  lemma {:induction false} ItemsGrow(outs: seq<Out>, i: nat)
    requires i <= |outs| && forall j :: 0 <= j < |outs| ==> ProperOut(outs[j])
    ensures |Encode(Items(outs[..i]))| <= |Encode(Items(outs))|
    decreases |outs|
  {
    var n := |outs|;
    if i == n {
      assert outs[..i] == outs;
    } else {
      var front, last := outs[..n - 1], ItemOf(outs[n - 1]);
      assert front[..i] == outs[..i];
      assert Items(outs) == Items(front) + [last];
      hide Items, ItemOf, Encode, EncodeItem;
      ItemsGrow(front, i);
      EncodeMore(Items(front), last);
    }
  }

  lemma {:induction false} DataMore(values: seq<Value>, v: Value)
    ensures Data(values + [v]) == Data(values) + ValueBytes(v)
  {
    if values == [] {
      assert ([v])[1..] == [] && values + [v] == [v];
    } else {
      DataMore(values[1..], v);
      assert (values + [v])[1..] == values[1..] + [v];
    }
  }

  lemma {:induction false} DataGrows(values: seq<Value>, i: nat)
    requires i <= |values|
    ensures |Data(values[..i])| <= |Data(values)|
    decreases |values|
  {
    var n := |values|;
    if i == n {
      assert values[..i] == values;
    } else {
      var front := values[..n - 1];
      assert front[..i] == values[..i] && values == front + [values[n - 1]];
      DataGrows(front, i);
      DataMore(front, values[n - 1]);
    }
  }

  lemma DataNext(values: seq<Value>, i: nat)
    requires i < |values|
    ensures Data(values[..i + 1]) == Data(values[..i]) + ValueBytes(values[i])
    ensures |Data(values[..i + 1])| <= |Data(values)|
  {
    assert values[..i + 1] == values[..i] + [values[i]];
    DataMore(values[..i], values[i]);
    DataGrows(values, i + 1);
  }

  // ---------- The parser ----------

  datatype Err = ErrOk | ErrVal | ErrBuf | Overloaded

  /** `DHCP_OPTIONS_OFS`: the place of the options in a message. */
  const OPTIONS_OFS := 240

  /** The two arrays of received options, as one. */
  function Paired(given: seq<bool>, val: seq<nat>): (vals: Values)
    requires |given| == |val|
    ensures |vals| == |given|
  {
    seq(|given|, i requires 0 <= i < |given| => if given[i] then Some(val[i]) else None)
  }

  class Received {
    const servers: Servers
    const given: array<bool>
    const val: array<nat>

    ghost predicate Valid()
      reads this, given, val
    {
      given.Length == val.Length == DNS_SLOT + servers
    }

    ghost function Vals(): (vals: Values)
      requires Valid()
      reads this, given, val
      ensures |vals| == DNS_SLOT + servers
    {
      Paired(given[..], val[..])
    }

    constructor (servers: Servers)
      ensures Valid() && this.servers == servers && fresh(given) && fresh(val)
    {
      this.servers := servers;
      given := new bool[DNS_SLOT + servers];
      val := new nat[DNS_SLOT + servers];
    }

    method Set(slot: nat, v: nat)
      requires Valid() && slot < DNS_SLOT + servers
      modifies given, val
      ensures Valid() && Vals() == old(Vals())[slot := Some(v)]
    {
      given[slot] := true;
      val[slot] := v;
    }

    /** The loop over the values of one option, from `decode_next` on. */
    method DecodeValues(m: seq<byte>, n: nat, p: nat, slot: nat)
      requires Valid() && 0 < n && Room(n, slot, Vals())
      modifies given, val
      ensures Valid() && Vals() == old(Decode(m, n, p, ZERO, slot, Vals()))
    {
      var value, len, at: nat, idx: nat := ZERO, n, p, slot;
      while !given[idx]
        invariant Valid() && 0 < len && |value| == 4 && Room(len, idx, Vals())
        invariant Decode(m, len, at, value, idx, Vals()) == old(Decode(m, n, p, ZERO, slot, Vals()))
        decreases len
      {
        value := CopyPartial(value, m, if len < 4 then len else 4, at);
        if len <= 4 {
          Set(idx, if len == 4 then BigEndian(value) else value[0]);
          return;
        }
        Set(idx, BigEndian(value));
        len := len - 4;
        at := at + 4;
        idx := idx + 1;
      }
    }

    /** `dhcp_parse_reply` on a message in one piece, up to the question whether the message is
        overloaded. The offsets are 16 bits wide; a message this short does not let them wrap. */
    method ParseReply(m: seq<byte>) returns (r: Err)
      requires Valid() && |m| <= 0xffff - 257
      modifies given, val
      ensures Valid()
      ensures |m| <= OPTIONS_OFS <==> r == ErrBuf
      ensures OPTIONS_OFS < |m| ==>
                match Scan(m, OPTIONS_OFS, servers, Cleared(servers))
                case None => r == ErrVal
                case Some(vals) => && r == (if vals[0].Some? then Overloaded else ErrOk)
                                   && Vals() == vals[0 := None]
    {
      forall i | 0 <= i < given.Length {
        given[i] := false;
      }
      assert Vals() == Cleared(servers);
      if |m| <= OPTIONS_OFS {
        return ErrBuf;
      }
      var offset: nat := OPTIONS_OFS;
      while offset < |m| && m[offset] != END
        invariant Valid()
        invariant Scan(m, offset, servers, Vals()) == Scan(m, OPTIONS_OFS, servers, Cleared(servers))
        decreases |m| - offset
      {
        var op := m[offset];
        if op == PAD {
          offset := offset + 1;
        } else {
          var len := LenAt(m, offset);
          if !SizeOk(op, len) {
            return ErrVal;
          }
          var n := DecodeLen(op, len, servers);
          if 0 < n {
            DecodeFits(op, len, servers, Vals());
            DecodeValues(m, n, offset + 2, Slot(op).value);
          }
          offset := offset + 2 + len;
        }
      }
      if given[0] {
        given[0] := false;
        r := Overloaded;
      } else {
        r := ErrOk;
      }
    }
  }

  // ---------- Writer and parser together ----------

  /** What one side writes behind a header, the other side reads: without the overload option every
      list of options with proper lengths is accepted, and each place gets the value of the first
      option with its code. */
  method Exchange(header: seq<byte>, outs: seq<Out>, length: nat, servers: Servers) returns (r: Err, received: Received)
    requires |header| == OPTIONS_OFS && MIN_OPTIONS <= length <= 0xffff - 257 - OPTIONS_OFS
    requires forall i :: 0 <= i < |outs| ==> ProperOut(outs[i])
    requires |Encode(Items(outs))| < length
    ensures received.Valid() && received.servers == servers
    ensures r == ErrVal <==> !Sized(Items(outs))
    ensures r == ErrOk <==> Sized(Items(outs)) && Meaning(Items(outs), 0).None?
    ensures r == ErrOk ==>
              forall i :: 0 <= i < DNS_SLOT + servers ==> received.Vals()[i] == Meaning(Items(outs), i)
  {
    hide Encode, Items, Scan, Meaning, Sized;
    var message := new Message(length);
    message.Write(outs);
    var m := header + message.options[..message.outLen];
    received := new Received(servers);
    r := received.ParseReply(m);
    ghost var end := OPTIONS_OFS + |Encode(Items(outs))| + 1;
    assert m[OPTIONS_OFS..end] == m[OPTIONS_OFS..][..end - OPTIONS_OFS] == message.Written()[..end - OPTIONS_OFS];
    RoundTrip(m, OPTIONS_OFS, Items(outs), servers);
  }
}

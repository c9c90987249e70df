/** DHCP options after section 2 of RFC 2132: what a list of options looks like in a message, what
    `dhcp_parse_reply` makes of a message in one piece, and what the list means. */
module DhcpOptions {
  import opened Common

  const PAD: byte := 0
  const END: byte := 255

  const SUBNET_MASK: byte := 1
  const ROUTER: byte := 3
  const DNS_SERVER: byte := 6
  const LEASE_TIME: byte := 51
  const OVERLOAD: byte := 52
  const MESSAGE_TYPE: byte := 53
  const SERVER_ID: byte := 54
  const T1: byte := 58
  const T2: byte := 59

  /** The place of the first DNS server; the others follow it. */
  const DNS_SLOT := 8

  /** The number of DNS servers there is room for, `DNS_MAX_SERVERS`. */
  type Servers = n: nat | 0 < n witness 1

  /** What has been received, place by place: `dhcp_rx_options_given` and `dhcp_rx_options_val`. */
  type Values = seq<Option<nat>>

  // ---------- Lists of options ----------

  datatype Item = Pad | Opt(code: byte, data: seq<byte>)

  predicate ProperItem(item: Item)
  {
    item.Opt? ==> item.code != PAD && item.code != END && |item.data| < 256
  }

  predicate Proper(items: seq<Item>)
  {
    forall i :: 0 <= i < |items| ==> ProperItem(items[i])
  }

  function EncodeItem(item: Item): (r: seq<byte>)
    requires ProperItem(item)
  {
    match item
    case Pad => [PAD]
    case Opt(code, data) => [code, |data|] + data
  }

  function Encode(items: seq<Item>): (r: seq<byte>)
    requires Proper(items)
  {
    if items == [] then [] else EncodeItem(items[0]) + Encode(items[1..])
  }

  lemma {:induction false} EncodeMore(items: seq<Item>, item: Item)
    requires Proper(items) && ProperItem(item)
    ensures Proper(items + [item]) && Encode(items + [item]) == Encode(items) + EncodeItem(item)
  {
    hide EncodeItem;
    var more := items + [item];
    if items == [] {
      assert more == [item] && more[1..] == [];
    } else {
      EncodeMore(items[1..], item);
      assert more[1..] == items[1..] + [item] && more[0] == items[0];
      var first, rest := EncodeItem(items[0]), Encode(items[1..]);
      assert Encode(more) == first + (rest + EncodeItem(item));
    }
  }

  // ---------- The parser ----------

  /** Four bytes, the most significant first. */
  function BigEndian(b: seq<byte>): (v: nat)
    requires |b| == 4
  {
    b[0] as int * 0x100_0000 + b[1] as int * 0x1_0000 + b[2] as int * 0x100 + b[3] as int
  }

  /** Where the value of an option goes. */
  function Slot(code: byte): (slot: Option<nat>)
  {
    if code == OVERLOAD then Some(0)
    else if code == MESSAGE_TYPE then Some(1)
    else if code == SERVER_ID then Some(2)
    else if code == LEASE_TIME then Some(3)
    else if code == T1 then Some(4)
    else if code == T2 then Some(5)
    else if code == SUBNET_MASK then Some(6)
    else if code == ROUTER then Some(7)
    else if code == DNS_SERVER then Some(DNS_SLOT)
    else None
  }

  /** The lengths that the parser accepts. */
  predicate SizeOk(code: byte, len: nat)
  {
    if code in {SUBNET_MASK, LEASE_TIME, SERVER_ID, T1, T2} then len == 4
    else if code in {OVERLOAD, MESSAGE_TYPE} then len == 1
    else if code == ROUTER then 4 <= len
    else if code == DNS_SERVER then len % 4 == 0
    else true
  }

  /** How many bytes of the value are decoded. */
  function DecodeLen(code: byte, len: nat, servers: Servers): (n: nat)
    requires SizeOk(code, len)
    ensures n <= len
  {
    if Slot(code).None? then 0
    else if code == ROUTER then 4
    else if code == DNS_SERVER && 4 * servers < len then 4 * servers
    else len
  }

  /** There is room for the values that n bytes from this place on hold. */
  predicate Room(n: nat, slot: nat, vals: Values)
  {
    && (n == 1 || n % 4 == 0)
    && slot < |vals|
    && n <= 4 * (|vals| - slot)
  }

  lemma DecodeFits(code: byte, len: nat, servers: Servers, vals: Values)
    requires SizeOk(code, len) && Slot(code).Some? && |vals| == DNS_SLOT + servers
    ensures Room(DecodeLen(code, len, servers), Slot(code).value, vals)
  {
  }

  /** `pbuf_copy_partial`: up to n bytes from p on, as far as the message goes. */
  function CopyPartial(value: seq<byte>, m: seq<byte>, n: nat, p: nat): (r: seq<byte>)
    requires |value| == 4 && n <= 4
    ensures |r| == 4
  {
    if |m| <= p then value
    else
      var k := if n <= |m| - p then n else |m| - p;
      m[p..p + k] + value[k..]
  }

  /** The values that n bytes from p on hold, unless their place is taken. The value that is being
      read starts out as what was read before it. */
  function Decode(m: seq<byte>, n: nat, p: nat, value: seq<byte>, slot: nat, vals: Values): (r: Values)
    requires |value| == 4 && (0 < n ==> Room(n, slot, vals))
    ensures |r| == |vals|
    decreases n
  {
    if n == 0 || vals[slot].Some? then vals
    else
      var read := CopyPartial(value, m, if n < 4 then n else 4, p);
      if 4 < n then Decode(m, n - 4, p + 4, read, slot + 1, vals[slot := Some(BigEndian(read))])
      else if n == 4 then vals[slot := Some(BigEndian(read))]
      else vals[slot := Some(read[0])]
  }

  const ZERO: seq<byte> := [0, 0, 0, 0]

  /** One option whose value starts at p. */
  function DecodeOption(m: seq<byte>, code: byte, len: nat, p: nat, servers: Servers, vals: Values): (r: Values)
    requires SizeOk(code, len) && |vals| == DNS_SLOT + servers
    ensures |r| == |vals|
  {
    if Slot(code).None? then vals
    else
      DecodeFits(code, len, servers, vals);
      Decode(m, DecodeLen(code, len, servers), p, ZERO, Slot(code).value, vals)
  }

  /** The length byte behind p; behind the end of the message it is 0. */
  function LenAt(m: seq<byte>, p: nat): (len: byte)
  {
    if p + 1 < |m| then m[p + 1] else 0
  }

  /** The options from p on; None is `ERR_VAL`. */
  function Scan(m: seq<byte>, p: nat, servers: Servers, vals: Values): (r: Option<Values>)
    requires |vals| == DNS_SLOT + servers
    ensures r.Some? ==> |r.value| == |vals|
    decreases |m| - p
  {
    if |m| <= p || m[p] == END then Some(vals)
    else if m[p] == PAD then Scan(m, p + 1, servers, vals)
    else
      var len := LenAt(m, p);
      if !SizeOk(m[p], len) then None
      else Scan(m, p + 2 + len, servers, DecodeOption(m, m[p], len, p + 2, servers, vals))
  }

  // ---------- What the list means ----------

  predicate Sized(items: seq<Item>)
  {
    forall i :: 0 <= i < |items| && items[i].Opt? ==> SizeOk(items[i].code, |items[i].data|)
  }

  /** The first option with this code that has any data. */
  function FirstData(items: seq<Item>, code: byte): (data: Option<seq<byte>>)
  {
    if items == [] then None
    else if items[0].Opt? && items[0].code == code && items[0].data != [] then Some(items[0].data)
    else FirstData(items[1..], code)
  }

  /** The option that a place is for. */
  function CodeFor(slot: nat): (code: byte)
  {
    if slot == 0 then OVERLOAD
    else if slot == 1 then MESSAGE_TYPE
    else if slot == 2 then SERVER_ID
    else if slot == 3 then LEASE_TIME
    else if slot == 4 then T1
    else if slot == 5 then T2
    else if slot == 6 then SUBNET_MASK
    else if slot == 7 then ROUTER
    else DNS_SERVER
  }

  function Head(slot: nat): (h: nat)
  {
    if slot < DNS_SLOT then slot else DNS_SLOT
  }

  /** A byte, the first address, or the address of the k-th server. */
  function ValueIn(data: seq<byte>, slot: nat): (v: Option<nat>)
    requires data != [] && SizeOk(CodeFor(slot), |data|)
  {
    if slot <= 1 then Some(data[0])
    else if slot < DNS_SLOT then Some(BigEndian(data[..4]))
    else
      var k := 4 * (slot - DNS_SLOT);
      if k + 4 <= |data| then Some(BigEndian(data[k..k + 4])) else None
  }

  lemma {:induction false} FirstDataIsSized(items: seq<Item>, code: byte)
    requires Sized(items)
    ensures FirstData(items, code).Some? ==>
              FirstData(items, code).value != [] && SizeOk(code, |FirstData(items, code).value|)
  {
    if items != [] {
      FirstDataIsSized(items[1..], code);
    }
  }

  /** What a place should hold: the value in the first option with its code. */
  ghost function Meaning(items: seq<Item>, slot: nat): (v: Option<nat>)
    requires Sized(items)
  {
    FirstDataIsSized(items, CodeFor(slot));
    match FirstData(items, CodeFor(slot))
    case None => None
    case Some(data) => ValueIn(data, slot)
  }
}

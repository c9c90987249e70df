/** DNS names: the encoder in `dns_send`, `dns_parse_name` and `dns_compare_name`, after sections
    3.1 and 4.1.4 of RFC 1035. */
module DnsName {
  import opened Common

  const DOT: byte := 46

  // ---------- Names and labels ----------

  /** The labels of a dotted name: the pieces between the dots. */
  function Split(name: seq<byte>): (labels: seq<seq<byte>>)
    ensures 0 < |labels|
  {
    if name == [] then [[]]
    else if name[0] == DOT then [[]] + Split(name[1..])
    else
      var rest := Split(name[1..]);
      [[name[0]] + rest[0]] + rest[1..]
  }

  /** The labels with dots between them. */
  function Join(labels: seq<seq<byte>>): (name: seq<byte>)
  {
    if labels == [] then []
    else if |labels| == 1 then labels[0]
    else labels[0] + [DOT] + Join(labels[1..])
  }

  /** Each label behind its length, which is kept in one byte. */
  function Encode(labels: seq<seq<byte>>): (r: seq<byte>)
  {
    if labels == [] then []
    else [|labels[0]| % 256] + labels[0] + Encode(labels[1..])
  }

  function EncodeName(name: seq<byte>): (r: seq<byte>)
  {
    Encode(Split(name)) + [0]
  }

  predicate NoDot(part: seq<byte>)
  {
    forall i :: 0 <= i < |part| ==> part[i] != DOT
  }

  lemma {:induction false} JoinSplit(name: seq<byte>)
    ensures Join(Split(name)) == name
    ensures |Encode(Split(name))| == |name| + 1
    ensures forall i :: 0 <= i < |Split(name)| ==> NoDot(Split(name)[i])
  {
    if name != [] {
      var rest := Split(name[1..]);
      JoinSplit(name[1..]);
      if name[0] == DOT {
        assert Split(name)[1..] == rest;
        assert name == [DOT] + name[1..];
      } else {
        assert Split(name)[1..] == rest[1..];
        assert name == [name[0]] + name[1..];
      }
    }
  }

  // ---------- The encoder ----------

  /** A label and what comes behind it: the end of the name, or a dot and further labels. */
  lemma {:induction false} SplitFirst(part: seq<byte>, rest: seq<byte>)
    requires NoDot(part)
    ensures Split(part) == [part]
    ensures Split(part + [DOT] + rest) == [part] + Split(rest)
  {
    if part == [] {
      assert part + [DOT] + rest == [DOT] + rest;
      assert ([DOT] + rest)[1..] == rest;
    } else {
      var name := part + [DOT] + rest;
      SplitFirst(part[1..], rest);
      assert name[1..] == part[1..] + [DOT] + rest;
      assert part == [part[0]] + part[1..];
      var tail := Split(name[1..]);
      assert tail[0] == part[1..];
      assert tail[1..] == Split(rest);
    }
  }

  lemma OneMore(s: seq<byte>, i: nat, j: nat)
    requires i <= j < |s|
    ensures s[i..j] + [s[j]] == s[i..j + 1]
  {
  }

  lemma NextMod(x: nat)
    ensures (x % 256 + 1) % 256 == (x + 1) % 256
  {
  }

  /** One label of the name from `start` on: its bytes, and its length in front of them. */
  method WriteLabel(name: seq<byte>, start: nat, buf: array<byte>, at: nat) returns (p: nat)
    requires start <= |name| && at + 1 + (|name| - start) <= buf.Length
    modifies buf
    ensures start <= p <= |name| && NoDot(name[start..p]) && (p < |name| ==> name[p] == DOT)
    ensures buf[at..at + 1 + (p - start)] == [(p - start) % 256] + name[start..p]
    ensures forall x :: 0 <= x < buf.Length && (x < at || at + 1 + (p - start) <= x) ==> buf[x] == old(buf[x])
  {
    p := start;
    var n: byte := 0;
    var query := at + 1;
    while p < |name| && name[p] != DOT
      invariant start <= p <= |name| && query == at + 1 + (p - start)
      invariant n == (p - start) % 256
      invariant forall i :: start <= i < p ==> name[i] != DOT
      invariant buf[at + 1..query] == name[start..p]
      invariant forall x :: 0 <= x < buf.Length && (x < at || query <= x) ==> buf[x] == old(buf[x])
    {
      NextMod(p - start);
      OneMore(name, start, p);
      buf[query] := name[p];
      assert buf[at + 1..query + 1] == name[start..p] + [name[p]];
      query := query + 1;
      n := (n + 1) % 256;
      p := p + 1;
    }
    buf[at] := n;
    assert buf[at + 1..query] == name[start..p];
    assert buf[at..query] == [buf[at]] + buf[at + 1..query];
  }

  lemma EncodeMore(done: seq<byte>, name: seq<byte>, start: nat, p: nat)
    requires start <= p <= |name| && NoDot(name[start..p]) && (p < |name| ==> name[p] == DOT)
    ensures var written := [(p - start) % 256] + name[start..p];
            if p < |name| then
              done + Encode(Split(name[start..])) == done + written + Encode(Split(name[p + 1..]))
            else
              done + Encode(Split(name[start..])) == done + written
  {
    var part := name[start..p];
    var written := [(p - start) % 256] + part;
    if p < |name| {
      var labels := Split(name[p + 1..]);
      SplitFirst(part, name[p + 1..]);
      assert name[start..] == part + [DOT] + name[p + 1..];
      hide Split;
      assert ([part] + labels)[1..] == labels;
      assert Encode([part] + labels) == written + Encode(labels);
    } else {
      SplitFirst(part, []);
      assert name[start..] == part;
      var labels: seq<seq<byte>> := [part];
      assert labels[1..] == [] && Encode(labels[1..]) == [];
      assert Encode(Split(name[start..])) == written;
    }
  }

  /** The query name as `dns_send` writes it. It takes the length of the name and two bytes. */
  method WriteName(name: seq<byte>, buf: array<byte>, at: nat) returns (end: nat)
    requires at + |name| + 2 <= buf.Length
    modifies buf
    ensures end == at + |name| + 2
    ensures buf[at..end] == EncodeName(name)
    ensures forall x :: 0 <= x < buf.Length && (x < at || end <= x) ==> buf[x] == old(buf[x])
  {
    hide Encode, Split;
    ghost var done: seq<byte> := [];
    var start, query := 0, at;
    assert name[0..] == name;
    while true
      invariant start <= |name| && query == at + start
      invariant buf[at..query] == done
      invariant forall x :: 0 <= x < buf.Length && (x < at || query <= x) ==> buf[x] == old(buf[x])
      invariant done + Encode(Split(name[start..])) == Encode(Split(name))
      decreases |name| - start
    {
      var p := WriteLabel(name, start, buf, query);
      EncodeMore(done, name, start, p);
      ghost var written := [(p - start) % 256] + name[start..p];
      assert buf[at..query] == done;
      assert buf[at..query + |written|] == done + written;
      done := done + written;
      query := query + 1 + (p - start);
      if p == |name| {
        break;
      }
      start := p + 1;
    }
    buf[query] := 0;
    end := query + 1;
    assert buf[at..end] == done + [0];
  }

  /** `DNS_MAX_NAME_LENGTH`, the room that `dns_send` sets aside for the encoded name. */
  const MAX_NAME := 256

  /** The encoded name fits into that room exactly if the name is two bytes shorter than it. */
  lemma EncodingFits(name: seq<byte>)
    ensures |EncodeName(name)| <= MAX_NAME <==> |name| <= MAX_NAME - 2
  {
    JoinSplit(name);
  }

  /** `dns_gethostbyname` admits names of less than `DNS_MAX_NAME_LENGTH` bytes. Of these exactly the
      longest do not fit. */
  lemma LongestNameDoesNotFit(name: seq<byte>)
    requires |name| < MAX_NAME
    ensures MAX_NAME < |EncodeName(name)| <==> |name| == 255
    ensures |name| == 255 ==> |EncodeName(name)| == 257
  {
    JoinSplit(name);
  }

  // ---------- dns_parse_name ----------

  /** A pointer to an earlier name: the two highest bits of the length are set. */
  predicate Compressed(n: byte)
  {
    192 <= n
  }

  /** The position behind the encoded name at p, or None if the walk leaves the message. */
  function ParseName(m: seq<byte>, p: nat): (end: Option<nat>)
    decreases |m| - p
  {
    if |m| <= p then None
    else if Compressed(m[p]) then Some(p + 2)
    else
      var q := p + 1 + m[p];
      if |m| <= q then None
      else if m[q] == 0 then Some(q + 1)
      else ParseName(m, q)
  }

  /** The message has the encoded labels, and the terminator, at p. */
  ghost predicate Holds(m: seq<byte>, p: nat, labels: seq<seq<byte>>)
    decreases |labels|
  {
    && p < |m|
    && if labels == [] then m[p] == 0
       else
         var q := p + 1 + |labels[0]|;
         && q <= |m|
         && m[p] == |labels[0]| % 256
         && m[p + 1..q] == labels[0]
         && Holds(m, q, labels[1..])
  }

  lemma TwoParts(m: seq<byte>, p: nat, a: seq<byte>, b: seq<byte>)
    requires p + |a| + |b| <= |m|
    ensures m[p..p + |a| + |b|] == a + b <==> m[p..p + |a|] == a && m[p + |a|..p + |a| + |b|] == b
  {
    var q := p + |a|;
    assert m[p..q + |b|] == m[p..q] + m[q..q + |b|];
    Parted(m[p..q], m[q..q + |b|], a, b);
  }

  lemma Parted(a: seq<byte>, b: seq<byte>, a': seq<byte>, b': seq<byte>)
    requires |a| == |a'| && |b| == |b'|
    ensures a + b == a' + b' <==> a == a' && b == b'
  {
    if a + b == a' + b' {
      assert a == (a + b)[..|a|] == a';
      assert b == (a + b)[|a|..] == b';
    }
  }

  lemma ThreeParts(m: seq<byte>, p: nat, n: byte, part: seq<byte>, rest: seq<byte>)
    requires p + 1 + |part| + |rest| <= |m|
    ensures m[p..p + 1 + |part| + |rest|] == [n] + part + rest
       <==> && m[p] == n
            && m[p + 1..p + 1 + |part|] == part
            && m[p + 1 + |part|..p + 1 + |part| + |rest|] == rest
  {
    TwoParts(m, p, [n] + part, rest);
    TwoParts(m, p, [n], part);
    assert m[p..p + 1] == [m[p]];
  }

  /** That is: the encoding stands there. */
  lemma {:induction false} HoldsEncoding(m: seq<byte>, p: nat, labels: seq<seq<byte>>)
    requires p + |Encode(labels)| < |m|
    ensures Holds(m, p, labels) <==> m[p..p + |Encode(labels)| + 1] == Encode(labels) + [0]
    decreases |labels|
  {
    if labels == [] {
      assert m[p..p + 1] == [m[p]];
    } else {
      var n: byte := |labels[0]| % 256;
      var part, rest := labels[0], Encode(labels[1..]) + [0];
      var e := Encode(labels) + [0];
      assert e == [n] + part + rest;
      assert |Encode(labels)| + 1 == |e|;
      assert Holds(m, p, labels) <==>
             m[p] == n && m[p + 1..p + 1 + |part|] == part && Holds(m, p + 1 + |part|, labels[1..]);
      HoldsEncoding(m, p + 1 + |part|, labels[1..]);
      hide Holds, Encode;
      ThreeParts(m, p, n, part, rest);
    }
  }

  /** The labels can be told apart from pointers and from the terminator. */
  predicate Skippable(labels: seq<seq<byte>>)
  {
    && (labels != [] ==> |labels[0]| < 192)
    && forall i :: 1 <= i < |labels| ==> 0 < |labels[i]| < 192
  }

  predicate Short(labels: seq<seq<byte>>)
  {
    forall i :: 0 <= i < |labels| ==> |labels[i]| < 256
  }

  /** Taking the first label off. */
  lemma HoldsFirst(m: seq<byte>, p: nat, labels: seq<seq<byte>>)
    requires Holds(m, p, labels) && labels != [] && Short(labels)
    ensures p + 1 + |labels[0]| < |m| && m[p] == |labels[0]|
    ensures m[p + 1..p + 1 + |labels[0]|] == labels[0]
    ensures Holds(m, p + 1 + |labels[0]|, labels[1..])
    ensures |Encode(labels)| == 1 + |labels[0]| + |Encode(labels[1..])|
    ensures |labels| == 1 ==> m[p + 1 + |labels[0]|] == 0 && Encode(labels[1..]) == []
  {
    assert |labels| == 1 ==> labels[1..] == [];
  }

  /** On the encoding of a name `dns_parse_name` stops behind the terminator exactly if no label is
      192 bytes or longer and none but the first is empty. */
  lemma {:induction false} ParseEndsBehind(m: seq<byte>, p: nat, labels: seq<seq<byte>>)
    requires Holds(m, p, labels) && labels != [] && Short(labels)
    ensures ParseName(m, p) == Some(p + |Encode(labels)| + 1) <==> Skippable(labels)
    decreases |labels|
  {
    hide Holds, Encode;
    var q, rest := p + 1 + |labels[0]|, labels[1..];
    HoldsFirst(m, p, labels);
    if 1 < |labels| {
      HoldsFirst(m, q, rest);
      ParseEndsBehind(m, q, rest);
      assert rest[0] == labels[1];
      assert Skippable(labels) <==> |labels[0]| < 192 && 0 < |labels[1]| && Skippable(rest) by {
        SkippableFirst(labels);
      }
    }
  }

  lemma SkippableFirst(labels: seq<seq<byte>>)
    requires 1 < |labels|
    ensures Skippable(labels) <==> |labels[0]| < 192 && 0 < |labels[1]| && Skippable(labels[1..])
  {
    var rest := labels[1..];
    assert forall i :: 1 <= i < |labels| ==> labels[i] == rest[i - 1];
    if |labels[0]| < 192 && 0 < |labels[1]| && Skippable(rest) {
      forall i | 1 <= i < |labels|
        ensures 0 < |labels[i]| < 192
      {
        assert labels[i] == rest[i - 1];
      }
    }
    if Skippable(labels) {
      forall i | 1 <= i < |rest|
        ensures 0 < |rest[i]| < 192
      {
        assert rest[i] == labels[i + 1];
      }
    }
  }

  // ---------- dns_compare_name ----------

  /** Compare n bytes of the query from i on with the message from p on; None if a byte outside
      of a buffer is needed. */
  function CompareLabel(query: seq<byte>, i: nat, m: seq<byte>, p: nat, n: nat): (same: Option<bool>)
    decreases n
  {
    if n == 0 then Some(true)
    else if |query| <= i || |m| <= p then None
    else if query[i] != m[p] then Some(false)
    else CompareLabel(query, i + 1, m, p + 1, n - 1)
  }

  /** Whether `dns_compare_name` takes the encoded name at p for the dotted name in query. */
  function CompareName(query: seq<byte>, i: nat, m: seq<byte>, p: nat): (same: Option<bool>)
    decreases |m| - p
  {
    if |m| <= p then None
    else if Compressed(m[p]) then Some(true)
    else
      var same := CompareLabel(query, i, m, p + 1, m[p]);
      var q := p + 1 + m[p];
      if same != Some(true) then same
      else if |m| <= q then None
      else if m[q] == 0 then Some(true)
      else CompareName(query, i + m[p] + 1, m, q)
  }

  /** Each label stands in the query at its place; what stands between them does not matter. */
  predicate Agrees(query: seq<byte>, i: nat, labels: seq<seq<byte>>)
    decreases |labels|
  {
    labels == []
    || (&& i + |labels[0]| <= |query|
        && query[i..i + |labels[0]|] == labels[0]
        && Agrees(query, i + |labels[0]| + 1, labels[1..]))
  }

  lemma {:induction false} LabelCompares(query: seq<byte>, i: nat, m: seq<byte>, p: nat, part: seq<byte>)
    requires i + |part| <= |query| && p + |part| <= |m| && m[p..p + |part|] == part
    ensures CompareLabel(query, i, m, p, |part|) == Some(query[i..i + |part|] == part)
    decreases |part|
  {
    if part != [] {
      assert m[p] == m[p..p + |part|][0];
      assert m[p + 1..p + 1 + |part[1..]|] == m[p..p + |part|][1..];
      var here := query[i..i + |part|];
      assert here == [query[i]] + query[i + 1..i + |part|];
      assert part == [part[0]] + part[1..];
      LabelCompares(query, i + 1, m, p + 1, part[1..]);
    }
  }

  /** A label that the query is too short for never compares equal. */
  lemma {:induction false} LabelComparesEqual(query: seq<byte>, i: nat, m: seq<byte>, p: nat, part: seq<byte>)
    requires p + |part| <= |m| && m[p..p + |part|] == part
    requires i <= |query| || part != []
    ensures CompareLabel(query, i, m, p, |part|) == Some(true)
       <==> i + |part| <= |query| && query[i..i + |part|] == part
    decreases |part|
  {
    if i + |part| <= |query| {
      LabelCompares(query, i, m, p, part);
    } else if i < |query| {
      assert m[p + 1..p + 1 + |part[1..]|] == m[p..p + |part|][1..];
      LabelComparesEqual(query, i + 1, m, p + 1, part[1..]);
    }
  }

  /** For an uncompressed name of any length the result is "same" exactly if every label byte equals
      the query byte at the same position. */
  lemma {:induction false} CompareIsAgreement(query: seq<byte>, i: nat, m: seq<byte>, p: nat, labels: seq<seq<byte>>)
    requires Holds(m, p, labels) && labels != [] && Skippable(labels)
    requires i <= |query| || labels[0] != []
    ensures CompareName(query, i, m, p) == Some(true) <==> Agrees(query, i, labels)
    decreases |labels|
  {
    hide Holds, Encode;
    var n, rest := |labels[0]|, labels[1..];
    assert Short(labels);
    HoldsFirst(m, p, labels);
    LabelComparesEqual(query, i, m, p + 1, labels[0]);
    if |labels| == 1 {
      assert rest == [];
    } else {
      SkippableFirst(labels);
      assert Short(rest);
      HoldsFirst(m, p + 1 + n, rest);
      if CompareLabel(query, i, m, p + 1, n) == Some(true) {
        CompareIsAgreement(query, i + n + 1, m, p + 1 + n, rest);
      }
    }
  }

  /** When the query is long enough for all labels, the comparison stays inside of the buffers. */
  lemma {:induction false} CompareStaysInside(query: seq<byte>, i: nat, m: seq<byte>, p: nat, labels: seq<seq<byte>>)
    requires Holds(m, p, labels) && labels != [] && Skippable(labels)
    requires i + |Encode(labels)| <= |query| + 1
    ensures CompareName(query, i, m, p) == Some(Agrees(query, i, labels))
    decreases |labels|
  {
    hide Holds, Encode;
    var n, rest := |labels[0]|, labels[1..];
    assert Short(labels);
    HoldsFirst(m, p, labels);
    LabelCompares(query, i, m, p + 1, labels[0]);
    if |labels| == 1 {
      assert rest == [];
    } else {
      SkippableFirst(labels);
      assert Short(rest);
      HoldsFirst(m, p + 1 + n, rest);
      CompareStaysInside(query, i + n + 1, m, p + 1 + n, rest);
    }
  }

  // ---------- The loops ----------

  /** `dns_parse_name`. */
  method Parse(m: seq<byte>, p: nat) returns (end: Option<nat>)
    ensures end == ParseName(m, p)
  {
    var query: nat := p;
    while true
      invariant ParseName(m, query) == ParseName(m, p)
      decreases |m| - query
    {
      if |m| <= query {
        return None;
      }
      var n: nat := m[query];
      query := query + 1;
      if 192 <= n {
        break;
      }
      ghost var start := query;
      ghost var len := n;
      while 0 < n
        invariant query == start + (len - n) && n <= len
      {
        query := query + 1;
        n := n - 1;
      }
      if |m| <= query {
        return None;
      }
      if m[query] == 0 {
        break;
      }
    }
    return Some(query + 1);
  }

  /** `dns_compare_name`; the inner loop stops at the first difference. */
  method Compare(query: seq<byte>, m: seq<byte>, p: nat) returns (same: Option<bool>)
    ensures same == CompareName(query, 0, m, p)
  {
    var i, response: nat := 0, p;
    while true
      invariant CompareName(query, i, m, response) == CompareName(query, 0, m, p)
      decreases |m| - response
    {
      if |m| <= response {
        return None;
      }
      var n: nat := m[response];
      response := response + 1;
      if 192 <= n {
        break;
      }
      ghost var i0, start, len := i, response, n;
      while 0 < n
        invariant n <= len && response == start + (len - n) && i == i0 + (len - n)
        invariant CompareLabel(query, i, m, response, n) == CompareLabel(query, i0, m, start, len)
      {
        if |query| <= i || |m| <= response {
          return None;
        }
        if query[i] != m[response] {
          return Some(false);
        }
        response := response + 1;
        i := i + 1;
        n := n - 1;
      }
      i := i + 1;
      if |m| <= response {
        return None;
      }
      if m[response] == 0 {
        break;
      }
    }
    return Some(true);
  }

  // ---------- Names against names ----------

  /** The query has a dot at every place where the response goes from a label to the next. */
  predicate DotsBetween(query: seq<byte>, i: nat, labels: seq<seq<byte>>)
    decreases |labels|
  {
    |labels| <= 1
    || (&& i + |labels[0]| < |query|
        && query[i + |labels[0]|] == DOT
        && DotsBetween(query, i + |labels[0]| + 1, labels[1..]))
  }

  /** The labels agree and are separated by dots exactly if the name they stand for is there. */
  lemma {:induction false} AgreementWithDots(query: seq<byte>, i: nat, labels: seq<seq<byte>>)
    requires labels != [] && i + |Join(labels)| <= |query|
    ensures query[i..i + |Join(labels)|] == Join(labels)
       <==> Agrees(query, i, labels) && DotsBetween(query, i, labels)
    decreases |labels|
  {
    hide Join;
    JoinFirst(query, i, labels);
    AgreesFirst(query, i, labels);
    hide Agrees, DotsBetween;
    if 1 < |labels| {
      AgreementWithDots(query, i + |labels[0]| + 1, labels[1..]);
    }
  }

  lemma AgreesFirst(query: seq<byte>, i: nat, labels: seq<seq<byte>>)
    requires labels != [] && i + |labels[0]| <= |query|
    ensures |labels| == 1 ==> (Agrees(query, i, labels) <==> query[i..i + |labels[0]|] == labels[0])
    ensures |labels| == 1 ==> DotsBetween(query, i, labels)
    ensures 1 < |labels| && i + |labels[0]| < |query| ==>
              (&& Agrees(query, i, labels)
               && DotsBetween(query, i, labels)
          <==> && query[i..i + |labels[0]|] == labels[0]
               && query[i + |labels[0]|] == DOT
               && Agrees(query, i + |labels[0]| + 1, labels[1..])
               && DotsBetween(query, i + |labels[0]| + 1, labels[1..]))
  {
    assert |labels| == 1 ==> labels[1..] == [];
  }

  lemma DottedParts(m: seq<byte>, p: nat, part: seq<byte>, rest: seq<byte>)
    requires p + |part| + 1 + |rest| <= |m|
    ensures m[p..p + |part| + 1 + |rest|] == part + [DOT] + rest
       <==> && m[p..p + |part|] == part
            && m[p + |part|] == DOT
            && m[p + |part| + 1..p + |part| + 1 + |rest|] == rest
  {
    TwoParts(m, p, part + [DOT], rest);
    TwoParts(m, p, part, [DOT]);
    assert m[p + |part|..p + |part| + 1] == [m[p + |part|]];
  }

  lemma JoinFirst(query: seq<byte>, i: nat, labels: seq<seq<byte>>)
    requires labels != [] && i + |Join(labels)| <= |query|
    ensures |labels| == 1 ==> Join(labels) == labels[0]
    ensures 1 < |labels| ==> |Join(labels)| == |labels[0]| + 1 + |Join(labels[1..])|
    ensures 1 < |labels| ==>
              (query[i..i + |Join(labels)|] == Join(labels)
          <==> && query[i..i + |labels[0]|] == labels[0]
               && query[i + |labels[0]|] == DOT
               && query[i + |labels[0]| + 1..i + |Join(labels)|] == Join(labels[1..]))
  {
    if 1 < |labels| {
      var part, rest := labels[0], Join(labels[1..]);
      assert Join(labels) == part + [DOT] + rest;
      hide Join;
      DottedParts(query, i, part, rest);
    }
  }

  lemma {:induction false} SplitIsShort(name: seq<byte>)
    ensures forall i :: 0 <= i < |Split(name)| ==> |Split(name)[i]| <= |name|
  {
    if name != [] {
      SplitIsShort(name[1..]);
    }
  }

  /** The message has the encoded name at p. */
  ghost predicate HoldsName(m: seq<byte>, p: nat, name: seq<byte>)
  {
    && p + |name| + 2 <= |m|
    && m[p..p + |name| + 2] == EncodeName(name)
  }

  lemma NameHeld(m: seq<byte>, p: nat, name: seq<byte>)
    requires HoldsName(m, p, name)
    ensures Holds(m, p, Split(name))
  {
    JoinSplit(name);
    HoldsEncoding(m, p, Split(name));
  }

  /** The walk over an encoded name ends behind it exactly if no label is 192 bytes or longer and
      none but the first is empty. */
  lemma WalkEndsBehindName(name: seq<byte>, m: seq<byte>, p: nat)
    requires |name| < 256 && HoldsName(m, p, name)
    ensures ParseName(m, p) == Some(p + |name| + 2) <==> Skippable(Split(name))
  {
    SplitIsShort(name);
    JoinSplit(name);
    NameHeld(m, p, name);
    ParseEndsBehind(m, p, Split(name));
  }

  /** The walk over the encoding of "a." ends one byte too early: its second label is empty. */
  lemma WalkStopsAtEmptyLabel()
    ensures HoldsName([1, 97, 0, 0], 0, [97, 46]) && ParseName([1, 97, 0, 0], 0) == Some(3)
  {
    var a, none: seq<byte> := [97], [];
    SplitFirst(a, none);
    SplitFirst(none, []);
    assert a + [DOT] + none == [97, 46];
    hide Split;
    var labels: seq<seq<byte>> := [a, none];
    assert labels[1..] == [none] && labels[1..][1..] == [];
    assert Encode(labels[1..]) == [0];
  }

  /** The walk over a label of 192 bytes takes it for a pointer. */
  lemma WalkStopsAtLongLabel(name: seq<byte>)
    requires |name| == 192 && NoDot(name)
    ensures HoldsName(EncodeName(name), 0, name) && ParseName(EncodeName(name), 0) == Some(2)
  {
    SplitFirst(name, []);
    JoinSplit(name);
    hide Split;
    var labels: seq<seq<byte>> := [name];
    assert labels[1..] == [];
  }

  /** The name that a query was made from compares equal to that query. */
  lemma EncodedNameCompares(name: seq<byte>, query: seq<byte>, m: seq<byte>, p: nat)
    requires HoldsName(m, p, name) && Skippable(Split(name))
    requires name <= query
    ensures CompareName(query, 0, m, p) == Some(true)
  {
    hide Split, Join, Encode, Holds, Agrees, DotsBetween, CompareName;
    var labels := Split(name);
    JoinSplit(name);
    NameHeld(m, p, name);
    CompareIsAgreement(query, 0, m, p, labels);
    AgreementWithDots(query, 0, labels);
  }

  /** "Same" means the same name exactly if the lengths are equal and the name asked for has a dot
      wherever the answer goes to its next label. */
  lemma ComparesExactly(name: seq<byte>, other: seq<byte>, query: seq<byte>, m: seq<byte>, p: nat)
    requires HoldsName(m, p, other) && Skippable(Split(other))
    requires name <= query
    requires CompareName(query, 0, m, p) == Some(true)
    ensures other == name <==> |other| == |name| && DotsBetween(query, 0, Split(other))
  {
    hide Split, Join, Encode, Holds, Agrees, DotsBetween, CompareName;
    var labels := Split(other);
    JoinSplit(other);
    NameHeld(m, p, other);
    CompareIsAgreement(query, 0, m, p, labels);
    AgreedFits(query, 0, labels);
    AgreementWithDots(query, 0, labels);
  }

  /** Labels that agree are inside of the query. */
  lemma {:induction false} AgreedFits(query: seq<byte>, i: nat, labels: seq<seq<byte>>)
    requires labels != [] && Agrees(query, i, labels)
    ensures i + |Join(labels)| <= |query|
    decreases |labels|
  {
    if 1 < |labels| {
      AgreedFits(query, i + |labels[0]| + 1, labels[1..]);
    }
  }

  /** Neither the terminator nor what is left behind it stops the comparison: the answer "ab.c"
      compares equal to the query "ab" in a buffer that held "ab.c" before. */
  lemma LongerNameCompares()
    ensures var query := [97, 98, 0, 99, 0];
            var m := [2, 97, 98, 1, 99, 0];
            var other := [97, 98, 46, 99];
            HoldsName(m, 0, other) && CompareName(query, 0, m, 0) == Some(true) && query[..2] != other
  {
    var other: seq<byte> := [97, 98, 46, 99];
    var ab, c: seq<byte> := [97, 98], [99];
    SplitFirst(ab, c);
    SplitFirst(c, []);
    assert other == ab + [DOT] + c;
    hide Split;
    var labels: seq<seq<byte>> := [ab, c];
    assert labels[1..] == [c] && labels[1..][1..] == [];
    assert Encode(labels[1..]) == [1, 99];
  }

  /** The answer "ab" compares equal to the query "ab.c". */
  lemma ShorterNameCompares()
    ensures var query := [97, 98, 46, 99, 0];
            var other := [97, 98];
            && HoldsName([2, 97, 98, 0], 0, other)
            && CompareName(query, 0, [2, 97, 98, 0], 0) == Some(true)
            && query[..4] != other
  {
    var m, other := [2, 97, 98, 0], [97, 98];
    SplitFirst(other, []);
    var labels: seq<seq<byte>> := [other];
    assert labels[1..] == [];
    assert Encode(labels) == [2, 97, 98];
    assert Encode(labels) + [0] == m == m[0..4];
    NameHeld(m, 0, other);
    assert Agrees([97, 98, 46, 99, 0], 0, labels);
    CompareIsAgreement([97, 98, 46, 99, 0], 0, m, 0, labels);
  }
}

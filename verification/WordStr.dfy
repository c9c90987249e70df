/** `strcpy` and `strcmp` of `mylib.c`: a word at a time where both pointers are aligned. Memory is
    little-endian, and `char` is unsigned. */
module WordStr {

  type byte = b: bv32 | b < 256

  // ---------- Words ----------

  function Word(a: byte, b: byte, c: byte, d: byte): (v: bv32)
  {
    a | (b << 8) | (c << 16) | (d << 24)
  }

  /** The test for a zero byte. */
  function ZeroMask(v: bv32): (m: bv32)
  {
    (v - 0x01010101) & !v & 0x80808080
  }

  /** The test fires exactly if the word holds a zero byte. */
  lemma ZeroTest(a: byte, b: byte, c: byte, d: byte)
    ensures ZeroMask(Word(a, b, c, d)) != 0 <==> a == 0 || b == 0 || c == 0 || d == 0
  {
  }

  /** The lowest byte of a word, and what a shift leaves behind. */
  function Low(v: bv32): (b: byte)
  {
    v & 0xff
  }

  function Down(v: bv32): (r: bv32)
  {
    v >> 8
  }

  /** The bytes of a word, from the lowest. */
  lemma Bytes(a: byte, b: byte, c: byte, d: byte)
    ensures var v := Word(a, b, c, d);
            Low(v) == a && Low(Down(v)) == b && Low(Down(Down(v))) == c && Low(Down(Down(Down(v)))) == d
  {
  }

  lemma SameWord(a: byte, b: byte, c: byte, d: byte, a': byte, b': byte, c': byte, d': byte)
    ensures Word(a, b, c, d) == Word(a', b', c', d') <==> a == a' && b == b' && c == c' && d == d'
  {
    Bytes(a, b, c, d);
    Bytes(a', b', c', d');
  }

  // ---------- Strings in memory ----------

  /** The string at p has len bytes in front of its terminator. */
  ghost predicate IsString(m: seq<byte>, p: nat, len: nat)
  {
    && p + len < |m|
    && m[p + len] == 0
    && forall i :: p <= i < p + len ==> m[i] != 0
  }

  predicate Aligned(p: nat, q: nat)
  {
    p % 4 == 0 && q % 4 == 0
  }

  lemma NextAligned(p: nat, q: nat)
    requires Aligned(p, q)
    ensures Aligned(p + 4, q + 4)
  {
  }

  /** In a memory of whole words the word of a byte is all there. */
  lemma WholeWord(size: nat, p: nat)
    requires size % 4 == 0 && p % 4 == 0 && p < size
    ensures p + 4 <= size
  {
  }

  // ---------- Order ----------

  /** Lexicographic comparison of byte strings: -1, 0 or +1. */
  function Lex(a: seq<byte>, b: seq<byte>): (r: int)
  {
    if a == [] then (if b == [] then 0 else -1)
    else if b == [] then 1
    else if a[0] != b[0] then (if a[0] < b[0] then -1 else 1)
    else Lex(a[1..], b[1..])
  }

  /** It is 0 exactly for equal strings, and the other way round for the strings the other way
      round. */
  lemma {:induction false} LexIsOrder(a: seq<byte>, b: seq<byte>)
    ensures Lex(a, b) == 0 <==> a == b
    ensures Lex(a, b) == -Lex(b, a)
  {
    if a != [] && b != [] && a[0] == b[0] {
      LexIsOrder(a[1..], b[1..]);
      assert a == [a[0]] + a[1..] && b == [b[0]] + b[1..];
    }
  }

  lemma {:induction false} LexTail(a: seq<byte>, b: seq<byte>, k: nat)
    requires k <= |a| && k <= |b| && a[..k] == b[..k]
    ensures Lex(a, b) == Lex(a[k..], b[k..])
    decreases k
  {
    if 0 < k {
      assert a[0] == a[..k][0] == b[0];
      assert a[1..][..k - 1] == a[..k][1..] && b[1..][..k - 1] == b[..k][1..];
      LexTail(a[1..], b[1..], k - 1);
      assert a[1..][k - 1..] == a[k..] && b[1..][k - 1..] == b[k..];
    }
  }

  /** What two terminated strings are compared by: the first bytes that differ, or their common
      end. */
  ghost function Order(m: seq<byte>, p: nat, n: nat, q: nat, l: nat): (r: int)
    requires p + n <= |m| && q + l <= |m|
  {
    Lex(m[p..p + n], m[q..q + l])
  }

  /** The first k bytes of two strings agree. */
  ghost predicate AgreeTo(m: seq<byte>, p: nat, n: nat, q: nat, l: nat, k: nat)
  {
    && k <= n && k <= l
    && p + n <= |m| && q + l <= |m|
    && m[p..p + k] == m[q..q + k]
  }

  lemma Within(m: seq<byte>, p: nat, n: nat, q: nat, l: nat, k: nat)
    requires IsString(m, p, n) && IsString(m, q, l) && AgreeTo(m, p, n, q, l, k)
    ensures k <= n && p + k < |m| && q + k < |m|
  {
  }

  lemma Slice<T>(m: seq<T>, p: nat, n: nat, k: nat)
    requires k <= n && p + n <= |m|
    ensures m[p..p + n][..k] == m[p..p + k] && m[p..p + n][k..] == m[p + k..p + n]
    ensures k < n ==> m[p + k..p + n][0] == m[p + k]
  {
  }

  lemma OneMore<T>(m: seq<T>, p: nat, k: nat)
    requires p + k < |m|
    ensures m[p..p + k + 1] == m[p..p + k] + [m[p + k]]
  {
  }

  lemma StringEnds(m: seq<byte>, p: nat, n: nat, k: nat)
    requires IsString(m, p, n) && k <= n
    ensures m[p + k] == 0 <==> k == n
  {
  }

  lemma OrderTail(m: seq<byte>, p: nat, n: nat, q: nat, l: nat, k: nat)
    requires AgreeTo(m, p, n, q, l, k)
    ensures Order(m, p, n, q, l) == Lex(m[p + k..p + n], m[q + k..q + l])
  {
    Slice(m, p, n, k);
    Slice(m, q, l, k);
    hide Lex;
    LexTail(m[p..p + n], m[q..q + l], k);
  }

  /** The byte behind the common part decides, unless it is common as well. */
  lemma OrderAt(m: seq<byte>, p: nat, n: nat, q: nat, l: nat, k: nat)
    requires IsString(m, p, n) && IsString(m, q, l) && AgreeTo(m, p, n, q, l, k)
    ensures m[p + k] != m[q + k] ==> Order(m, p, n, q, l) == if m[p + k] < m[q + k] then -1 else 1
    ensures m[p + k] == m[q + k] == 0 ==> Order(m, p, n, q, l) == 0
    ensures m[p + k] == m[q + k] != 0 ==> AgreeTo(m, p, n, q, l, k + 1)
  {
    StringEnds(m, p, n, k);
    StringEnds(m, q, l, k);
    OrderTail(m, p, n, q, l, k);
    Slice(m, p, n, k);
    Slice(m, q, l, k);
    hide IsString, Order;
    if k < n {
      OneMore(m, p, k);
    }
    if k < l {
      OneMore(m, q, k);
    }
  }

  /** Four common bytes: the strings end in them together, or go on behind them. */
  lemma FourCommon(m: seq<byte>, p: nat, n: nat, q: nat, l: nat, k: nat)
    requires IsString(m, p, n) && IsString(m, q, l) && AgreeTo(m, p, n, q, l, k)
    requires p + k + 4 <= |m| && q + k + 4 <= |m|
    requires m[p + k] == m[q + k] && m[p + k + 1] == m[q + k + 1]
    requires m[p + k + 2] == m[q + k + 2] && m[p + k + 3] == m[q + k + 3]
    ensures if m[p + k] == 0 || m[p + k + 1] == 0 || m[p + k + 2] == 0 || m[p + k + 3] == 0
            then Order(m, p, n, q, l) == 0
            else AgreeTo(m, p, n, q, l, k + 4)
  {
    hide IsString, Order, AgreeTo;
    OrderAt(m, p, n, q, l, k);
    if m[p + k] != 0 {
      OrderAt(m, p, n, q, l, k + 1);
      if m[p + k + 1] != 0 {
        OrderAt(m, p, n, q, l, k + 2);
        if m[p + k + 2] != 0 {
          OrderAt(m, p, n, q, l, k + 3);
        }
      }
    }
  }

  /** A word of the string holds a zero byte exactly if the string ends in it. */
  lemma EndsInWord(m: seq<byte>, src: nat, len: nat, k: nat, bytes: seq<byte>)
    requires IsString(m, src, len) && k <= len && |bytes| == 4
    requires forall j :: 0 <= j < 4 && k + j <= len ==> bytes[j] == m[src + k + j]
    ensures bytes[0] == 0 || bytes[1] == 0 || bytes[2] == 0 || bytes[3] == 0 <==> len < k + 4
    ensures k + 4 <= len ==> src + k + 4 <= |m|
  {
    if len < k + 4 {
      assert bytes[len - k] == m[src + k + (len - k)];
    } else {
      var s := src + k;
      assert m[s] != 0 && m[s + 1] != 0 && m[s + 2] != 0 && m[s + 3] != 0;
    }
  }

  class Memory {
    const mem: array<byte>

    ghost predicate Valid()
      reads this
    {
      mem.Length % 4 == 0
    }

    function LoadWord(p: nat): (v: bv32)
      requires p + 4 <= mem.Length
      reads mem
    {
      Word(mem[p], mem[p + 1], mem[p + 2], mem[p + 3])
    }

    /** k bytes have been copied since the memory was m, and nothing else has changed. */
    ghost predicate Copied(m: seq<byte>, dst: nat, src: nat, k: nat)
      reads mem
    {
      && |m| == mem.Length && dst + k <= |m| && src + k <= |m|
      && (forall i :: dst <= i < dst + k ==> mem[i] == m[src + (i - dst)])
      && forall i :: 0 <= i < |m| && !(dst <= i < dst + k) ==> mem[i] == m[i]
    }

    method CopyByte(d: nat, c: byte, ghost m: seq<byte>, ghost dst: nat, ghost src: nat, ghost k: nat)
      requires d == dst + k < mem.Length && Copied(m, dst, src, k)
      requires src + k < |m| && c == m[src + k]
      modifies mem
      ensures Copied(m, dst, src, k + 1)
    {
      mem[d] := c;
    }

    method CopyTwo(d: nat, a: byte, b: byte, ghost m: seq<byte>, ghost dst: nat, ghost src: nat, ghost k: nat)
      requires d == dst + k && d + 2 <= mem.Length && Copied(m, dst, src, k)
      requires src + k + 2 <= |m| && a == m[src + k] && b == m[src + k + 1]
      modifies mem
      ensures Copied(m, dst, src, k + 2)
    {
      hide *;
      CopyByte(d, a, m, dst, src, k);
      CopyByte(d + 1, b, m, dst, src, k + 1);
    }

    /** A whole word of the string. */
    method StoreWord(d: nat, v: bv32, ghost m: seq<byte>, ghost dst: nat, ghost src: nat, ghost k: nat)
      requires d == dst + k && d + 4 <= mem.Length && src + k + 4 <= |m|
      requires Copied(m, dst, src, k)
      requires v == Word(m[src + k], m[src + k + 1], m[src + k + 2], m[src + k + 3])
      modifies mem
      ensures Copied(m, dst, src, k + 4)
    {
      ghost var s := src + k;
      Bytes(m[s], m[s + 1], m[s + 2], m[s + 3]);
      hide *;
      CopyTwo(d, Low(v), Low(Down(v)), m, dst, src, k);
      CopyTwo(d + 2, Low(Down(Down(v))), Low(Down(Down(Down(v)))), m, dst, src, k + 2);
    }

    /** The word with the terminator, byte by byte; what stands behind the terminator may have been
        overwritten already. */
    method CopyTail(v0: bv32, d: nat, ghost bytes: seq<byte>, ghost m: seq<byte>, ghost dst: nat, ghost src: nat, ghost k: nat, ghost len: nat)
      requires d == dst + k && k <= len < k + 4 && IsString(m, src, len) && dst + len < |m| == mem.Length
      requires Copied(m, dst, src, k)
      requires |bytes| == 4 && v0 == Word(bytes[0], bytes[1], bytes[2], bytes[3])
      requires forall j :: 0 <= j < 4 && k + j <= len ==> bytes[j] == m[src + k + j]
      modifies mem
      ensures Copied(m, dst, src, len + 1)
    {
      var v := v0;
      Bytes(bytes[0], bytes[1], bytes[2], bytes[3]);
      hide Word, Low, Down, Copied;
      CopyByte(d, Low(v), m, dst, src, k);
      if Low(v) == 0 {
        return;
      }
      v := Down(v);
      CopyByte(d + 1, Low(v), m, dst, src, k + 1);
      if Low(v) == 0 {
        return;
      }
      v := Down(v);
      CopyByte(d + 2, Low(v), m, dst, src, k + 2);
      if Low(v) == 0 {
        return;
      }
      v := Down(v);
      CopyByte(d + 3, Low(v), m, dst, src, k + 3);
    }

    /** The string still stands while it is being copied elsewhere. */
    lemma StillThere(m: seq<byte>, dst: nat, src: nat, k: nat, len: nat, i: nat)
      requires Copied(m, dst, src, k) && IsString(m, src, len)
      requires k <= len && (dst + len < src || src + len < dst)
      requires i <= len
      ensures src + i < mem.Length == |m| && mem[src + i] == m[src + i] && (mem[src + i] == 0 <==> i == len)
    {
    }

    /** `strcpy`: the string and its terminator are copied, whatever the alignment, and no byte
        behind them is written. */
    method Strcpy(dst: nat, src: nat, ghost len: nat) returns (r: nat)
      requires Valid() && IsString(mem[..], src, len)
      requires dst + len < mem.Length && (dst + len < src || src + len < dst)
      modifies mem
      ensures r == dst
      ensures Copied(old(mem[..]), dst, src, len + 1)
    {
      ghost var m := mem[..];
      assert Copied(m, dst, src, 0);
      hide IsString, Copied;
      r := dst;
      var d, s: nat := dst, src;
      ghost var k: nat := 0;
      while !Aligned(d, s)
        invariant d == dst + k && s == src + k && k <= len
        invariant Copied(m, dst, src, k)
        decreases len - k
      {
        StillThere(m, dst, src, k, len, k);
        var c := mem[s];
        CopyByte(d, c, m, dst, src, k);
        s := s + 1;
        d := d + 1;
        if c == 0 {
          return;
        }
        k := k + 1;
      }
      CopyWords(d, s, m, dst, src, k, len);
    }

    /** The second loop of `strcpy`. */
    method CopyWords(d0: nat, s0: nat, ghost m: seq<byte>, ghost dst: nat, ghost src: nat, ghost k0: nat, ghost len: nat)
      requires Valid() && IsString(m, src, len) && |m| == mem.Length
      requires dst + len < |m| && (dst + len < src || src + len < dst)
      requires d0 == dst + k0 && s0 == src + k0 && k0 <= len && Aligned(d0, s0)
      requires Copied(m, dst, src, k0)
      modifies mem
      ensures Copied(m, dst, src, len + 1)
    {
      hide Word, ZeroMask, Copied, IsString;
      var d, s := d0, s0;
      ghost var k := k0;
      while true
        invariant d == dst + k && s == src + k && k <= len && Aligned(d, s)
        invariant Copied(m, dst, src, k)
        decreases len - k
      {
        StillThere(m, dst, src, k, len, k);
        WholeWord(mem.Length, s);
        ghost var bytes := [mem[s], mem[s + 1], mem[s + 2], mem[s + 3]];
        var v := LoadWord(s);
        ZeroTest(mem[s], mem[s + 1], mem[s + 2], mem[s + 3]);
        forall j | 0 <= j < 4 && k + j <= len
          ensures bytes[j] == m[src + k + j]
        {
          StillThere(m, dst, src, k, len, k + j);
        }
        EndsInWord(m, src, len, k, bytes);
        if ZeroMask(v) != 0 {
          CopyTail(v, d, bytes, m, dst, src, k, len);
          return;
        }
        StoreWord(d, v, m, dst, src, k);
        NextAligned(d, s);
        d, s, k := d + 4, s + 4, k + 4;
      }
    }

    /** One pair of bytes: they decide, or the strings agree in one more byte. */
    method CompareByte(c1: byte, c2: byte, ghost m: seq<byte>, ghost p: nat, ghost n: nat, ghost q: nat, ghost l: nat, ghost k: nat)
      returns (decided: bool, r: int)
      requires IsString(m, p, n) && IsString(m, q, l) && AgreeTo(m, p, n, q, l, k)
      requires c1 == m[p + k] && c2 == m[q + k]
      ensures decided ==> r == Order(m, p, n, q, l)
      ensures decided <==> c1 != c2 || c1 == 0
      ensures !decided ==> AgreeTo(m, p, n, q, l, k + 1)
    {
      OrderAt(m, p, n, q, l, k);
      hide Order, AgreeTo;
      if c1 != c2 {
        return true, if c1 < c2 then -1 else 1;
      }
      return c1 == 0, 0;
    }

    /** Two words that differ, byte by byte. */
    method CompareTail(v: bv32, w: bv32, ghost m: seq<byte>, ghost p: nat, ghost n: nat, ghost q: nat, ghost l: nat, ghost k: nat)
      returns (r: int)
      requires IsString(m, p, n) && IsString(m, q, l) && AgreeTo(m, p, n, q, l, k)
      requires p + k + 4 <= |m| && q + k + 4 <= |m| && v != w
      requires v == Word(m[p + k], m[p + k + 1], m[p + k + 2], m[p + k + 3])
      requires w == Word(m[q + k], m[q + k + 1], m[q + k + 2], m[q + k + 3])
      ensures r == Order(m, p, n, q, l)
    {
      var v1, v2 := v, w;
      Bytes(m[p + k], m[p + k + 1], m[p + k + 2], m[p + k + 3]);
      Bytes(m[q + k], m[q + k + 1], m[q + k + 2], m[q + k + 3]);
      hide Word, Low, Down, Order, AgreeTo, IsString;
      var decided;
      decided, r := CompareByte(Low(v1), Low(v2), m, p, n, q, l, k);
      if decided {
        return;
      }
      v1, v2 := Down(v1), Down(v2);
      decided, r := CompareByte(Low(v1), Low(v2), m, p, n, q, l, k + 1);
      if decided {
        return;
      }
      v1, v2 := Down(v1), Down(v2);
      decided, r := CompareByte(Low(v1), Low(v2), m, p, n, q, l, k + 2);
      if decided {
        return;
      }
      v1, v2 := Down(v1), Down(v2);
      decided, r := CompareByte(Low(v1), Low(v2), m, p, n, q, l, k + 3);
    }

    /** The second loop of `strcmp`. */
    method CompareWords(p0: nat, q0: nat, ghost s1: nat, ghost n: nat, ghost s2: nat, ghost l: nat, ghost k0: nat) returns (r: int)
      requires Valid() && IsString(mem[..], s1, n) && IsString(mem[..], s2, l)
      requires p0 == s1 + k0 && q0 == s2 + k0 && k0 <= n && AgreeTo(mem[..], s1, n, s2, l, k0) && Aligned(p0, q0)
      ensures r == Order(mem[..], s1, n, s2, l)
    {
      ghost var m, k := mem[..], k0;
      var p, q := p0, q0;
      while true
        invariant p == s1 + k && q == s2 + k && Aligned(p, q)
        invariant AgreeTo(m, s1, n, s2, l, k)
        decreases n - k
      {
        Within(m, s1, n, s2, l, k);
        WholeWord(mem.Length, p);
        WholeWord(mem.Length, q);
        hide AgreeTo, IsString;
        SameWord(m[p], m[p + 1], m[p + 2], m[p + 3], m[q], m[q + 1], m[q + 2], m[q + 3]);
        ZeroTest(m[p], m[p + 1], m[p + 2], m[p + 3]);
        hide Word, ZeroMask, Order;
        var v1, v2 := LoadWord(p), LoadWord(q);
        if v1 != v2 {
          r := CompareTail(v1, v2, m, s1, n, s2, l, k);
          return;
        }
        FourCommon(m, s1, n, s2, l, k);
        if ZeroMask(v1) != 0 {
          return 0;
        }
        NextAligned(p, q);
        p, q, k := p + 4, q + 4, k + 4;
      }
    }

    /** `strcmp`: the sign of the lexicographic comparison, whatever the alignment. */
    method Strcmp(s1: nat, s2: nat, ghost n: nat, ghost l: nat) returns (r: int)
      requires Valid() && IsString(mem[..], s1, n) && IsString(mem[..], s2, l)
      ensures r == Order(mem[..], s1, n, s2, l)
    {
      ghost var m := mem[..];
      assert AgreeTo(m, s1, n, s2, l, 0);
      hide Order, AgreeTo, IsString;
      var p, q: nat := s1, s2;
      ghost var k: nat := 0;
      while !Aligned(p, q)
        invariant p == s1 + k && q == s2 + k && k <= n
        invariant AgreeTo(m, s1, n, s2, l, k)
        decreases n - k
      {
        Within(m, s1, n, s2, l, k);
        var decided;
        decided, r := CompareByte(mem[p], mem[q], m, s1, n, s2, l, k);
        if decided {
          return;
        }
        p, q, k := p + 1, q + 1, k + 1;
        Within(m, s1, n, s2, l, k);
      }
      r := CompareWords(p, q, s1, n, s2, l, k);
    }
  }
}

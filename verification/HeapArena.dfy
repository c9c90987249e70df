/** The bytes of the heap arena. Block headers live inside the arena: two little-endian
    `mem_size_t` words, `next` and `prev`, and the byte `used`. */
module HeapArena {
  import opened Common
  import opened HeapBlocks
  import opened HeapLaws

  // ---------- Header fields ----------

  function Word(m: seq<byte>, p: nat): (v: nat)
    requires p + 2 <= |m|
  {
    m[p] as int + 256 * (m[p + 1] as int)
  }

  function NextOf(m: seq<byte>, p: nat): (v: nat)
    requires p + 5 <= |m|
  {
    Word(m, p)
  }

  function PrevOf(m: seq<byte>, p: nat): (v: nat)
    requires p + 5 <= |m|
  {
    Word(m, p + 2)
  }

  predicate UsedOf(m: seq<byte>, p: nat)
    requires p + 5 <= |m|
  {
    m[p + 4] != 0
  }

  function PutWord(m: seq<byte>, p: nat, v: nat): (r: seq<byte>)
    requires p + 2 <= |m| && v < SIZE_MODULUS
    ensures |r| == |m| && Word(r, p) == v
    ensures forall x :: 0 <= x < |m| && x != p && x != p + 1 ==> r[x] == m[x]
  {
    m[p := v % 256][p + 1 := v / 256]
  }

  // ---------- The block list in the arena ----------

  /** The headers of the blocks stand in the arena; prev is the block before the first one. */
  predicate Laid(m: seq<byte>, bs: seq<Block>, prev: nat)
  {
    bs == []
    || (&& Stands(m, bs[0], prev)
        && Laid(m, bs[1..], bs[0].off))
  }

  predicate Stands(m: seq<byte>, b: Block, prev: nat)
  {
    && b.off + 5 <= |m|
    && NextOf(m, b.off) == b.next
    && PrevOf(m, b.off) == prev
    && UsedOf(m, b.off) == b.used
  }

  ghost predicate Agree(m: seq<byte>, m': seq<byte>, lo: int, hi: int)
  {
    && |m'| == |m|
    && forall x :: 0 <= x < |m| && lo <= x < hi ==> m'[x] == m[x]
  }

  function LastOff(bs: seq<Block>, prev: nat): (off: nat)
  {
    if bs == [] then prev else bs[|bs| - 1].off
  }

  lemma {:induction false} LaidJoin(m: seq<byte>, a: seq<Block>, b: seq<Block>, prev: nat)
    ensures Laid(m, a + b, prev) <==> Laid(m, a, prev) && Laid(m, b, LastOff(a, prev))
  {
    if a == [] {
      assert a + b == b;
    } else {
      LaidJoin(m, a[1..], b, a[0].off);
      assert (a + b)[1..] == a[1..] + b;
    }
  }

  lemma {:induction false} LaidInRange(c: Config, m: seq<byte>, m': seq<byte>, bs: seq<Block>,
                                       prev: nat, lo: int, hi: int)
    requires 5 <= c.headerSize && Tiles(c, bs, lo, hi)
    requires Laid(m, bs, prev) && Agree(m, m', lo, hi)
    ensures Laid(m', bs, prev)
  {
    if bs != [] {
      TilesPart(c, bs[1..], 0, bs[0].next, hi);
      LaidInRange(c, m, m', bs[1..], bs[0].off, bs[0].next, hi);
    }
  }

  /** m' differs from m only inside [lo, hi) and in the `prev` field of the header at hi, which
      names the block at prev unless hi is the end of the heap. */
  ghost predicate Rewritten(c: Config, m: seq<byte>, m': seq<byte>, lo: int, hi: nat, prev: nat)
  {
    && |m'| == |m|
    && lo <= hi && hi + 5 <= |m|
    && (forall x :: 0 <= x < |m| && (x < lo || hi <= x) && x != hi + 2 && x != hi + 3 ==> m'[x] == m[x])
    && (hi < c.memSize ==> PrevOf(m', hi) == prev)
  }

  /** The blocks behind a rewritten range still stand, with their new predecessor. */
  lemma LaidBehind(c: Config, m: seq<byte>, m': seq<byte>, bs: seq<Block>, lo: int, hi: nat,
                   prev: nat, prev': nat)
    requires 5 <= c.headerSize && Tiles(c, bs, hi, c.memSize)
    requires Laid(m, bs, prev) && Rewritten(c, m, m', lo, hi, prev')
    ensures Laid(m', bs, prev')
  {
    if bs != [] {
      TilesPart(c, bs[1..], 0, bs[0].next, c.memSize);
      LaidInRange(c, m, m', bs[1..], bs[0].off, bs[0].next, c.memSize);
    }
  }

  /** Replacing the middle blocks of a list, with only their bytes and the `prev` field behind
      them rewritten, leaves the whole list standing. */
  lemma Relaid(c: Config, m: seq<byte>, m': seq<byte>, pre: seq<Block>, mid: seq<Block>,
               post: seq<Block>, lo: int, hi: nat, oldPrev: nat)
    requires 5 <= c.headerSize && mid != []
    requires Tiles(c, pre, 0, lo) && Tiles(c, post, hi, c.memSize)
    requires Laid(m, pre, 0) && Laid(m, post, oldPrev)
    requires Rewritten(c, m, m', lo, hi, mid[|mid| - 1].off)
    requires Laid(m', mid, LastOff(pre, 0))
    ensures Laid(m', pre + mid + post, 0)
  {
    hide Tiles, DataKept, Laid;
    LaidInRange(c, m, m', pre, 0, 0, lo);
    LaidBehind(c, m, m', post, lo, hi, oldPrev, mid[|mid| - 1].off);
    LaidJoin(m', pre, mid, 0);
    LaidJoin(m', pre + mid, post, 0);
  }

  // ---------- Payload ----------

  /** The data areas of all used blocks of the list are unchanged, leaving out the block at
      offset mine (which is negative for none). */
  ghost predicate DataKept(c: Config, m: seq<byte>, m': seq<byte>, bs: seq<Block>, mine: int)
  {
    bs == []
    || (&& (bs[0].used && bs[0].off != mine ==> Agree(m, m', bs[0].off + c.headerSize, bs[0].next))
        && DataKept(c, m, m', bs[1..], mine))
  }

  lemma {:induction false} DataKeptJoin(c: Config, m: seq<byte>, m': seq<byte>, a: seq<Block>, b: seq<Block>, mine: int)
    ensures DataKept(c, m, m', a + b, mine)
            <==> DataKept(c, m, m', a, mine) && DataKept(c, m, m', b, mine)
  {
    if a == [] {
      assert a + b == b;
    } else {
      DataKeptJoin(c, m, m', a[1..], b, mine);
      assert (a + b)[1..] == a[1..] + b;
    }
  }

  lemma {:induction false} DataKeptInRange(c: Config, m: seq<byte>, m': seq<byte>, bs: seq<Block>,
                                           lo: int, hi: int, mine: int)
    requires Tiles(c, bs, lo, hi) && Agree(m, m', lo, hi)
    ensures DataKept(c, m, m', bs, mine)
  {
    if bs != [] {
      TilesPart(c, bs[1..], 0, bs[0].next, hi);
      DataKeptInRange(c, m, m', bs[1..], bs[0].next, hi, mine);
    }
  }

  lemma DataKeptAround(c: Config, m: seq<byte>, m': seq<byte>, pre: seq<Block>, mid: seq<Block>,
                       post: seq<Block>, lo: int, hi: nat, prev: nat, mine: int)
    requires 5 <= c.headerSize
    requires Tiles(c, pre, 0, lo) && Tiles(c, post, hi, c.memSize)
    requires Rewritten(c, m, m', lo, hi, prev)
    requires DataKept(c, m, m', mid, mine)
    ensures DataKept(c, m, m', pre + mid + post, mine)
  {
    DataKeptInRange(c, m, m', pre, 0, lo, mine);
    if post != [] {
      TilesPart(c, post[1..], 0, post[0].next, c.memSize);
      DataKeptInRange(c, m, m', post[1..], post[0].next, c.memSize, mine);
    }
    DataKeptJoin(c, m, m', pre, mid, mine);
    DataKeptJoin(c, m, m', pre + mid, post, mine);
  }

  // ---------- The header writes of the operations ----------

  /** A list whose headers stand, taken apart around the blocks from k up to m. */
  lemma LaidAround(c: Config, mem: seq<byte>, bs: seq<Block>, k: nat, m: nat)
    requires Tiles(c, bs, 0, c.memSize) && Laid(mem, bs, 0) && k < m <= |bs|
    ensures Tiles(c, bs[..k], 0, bs[k].off) && Laid(mem, bs[..k], 0)
    ensures Tiles(c, bs[m..], bs[m - 1].next, c.memSize) && Laid(mem, bs[m..], bs[m - 1].off)
    ensures Roomy(c, bs[k]) && Stands(mem, bs[k], LastOff(bs[..k], 0))
    ensures bs[k].next <= bs[m - 1].next <= c.memSize
  {
    assert bs == bs[..k] + bs[k..];
    assert bs == bs[..m] + bs[m..];
    assert bs[m - 1..][1..] == bs[m..];
    TilesPart(c, bs, k, 0, c.memSize);
    TilesPart(c, bs, m - 1, 0, c.memSize);
    TilesPart(c, bs[m..], 0, bs[m - 1].next, c.memSize);
    NextIsOrdered(c, bs, k, m, 0, c.memSize);
    LaidJoin(mem, bs[..k], bs[k..], 0);
    LaidJoin(mem, bs[..m], bs[m..], 0);
  }

  lemma FlagStands(c: Config, m: seq<byte>, m': seq<byte>, b: Block, prev: nat, used: bool)
    requires 5 <= c.headerSize && Roomy(c, b) && b.next <= c.memSize
    requires |m| == c.memSize + c.headerSize
    requires Stands(m, b, prev) && m' == m[b.off + 4 := if used then 1 else 0]
    requires b.next < c.memSize ==> PrevOf(m, b.next) == b.off
    ensures Rewritten(c, m, m', b.off, b.next, b.off)
    ensures Laid(m', [b.(used := used)], prev)
    ensures DataKept(c, m, m', [b], -1)
  {
    assert [b][1..] == [];
    assert [b.(used := used)][1..] == [];
  }

  /** Changing the flag of block k. */
  lemma FlagLaid(c: Config, m: seq<byte>, m': seq<byte>, bs: seq<Block>, k: nat, used: bool)
    requires 5 <= c.headerSize && Tiles(c, bs, 0, c.memSize) && Laid(m, bs, 0) && k < |bs|
    requires |m| == c.memSize + c.headerSize && bs[k].off + 5 <= |m|
    requires m' == m[bs[k].off + 4 := if used then 1 else 0]
    ensures Laid(m', bs[k := bs[k].(used := used)], 0)
    ensures DataKept(c, m, m', bs, -1)
    ensures UsedOf(m', c.memSize) == UsedOf(m, c.memSize)
  {
    hide Tiles, DataKept, Laid;
    LaidAround(c, m, bs, k, k + 1);
    var b, pre, post := bs[k], bs[..k], bs[k + 1..];
    assert post != [] ==> Stands(m, post[0], b.off);
    FlagStands(c, m, m', b, LastOff(pre, 0), used);
    Relaid(c, m, m', pre, [b.(used := used)], post, b.off, b.next, b.off);
    assert bs[k := b.(used := used)] == pre + [b.(used := used)] + post;
    DataKeptAround(c, m, m', pre, [b], post, b.off, b.next, b.off, -1);
    assert bs == pre + [b] + post;
  }

  lemma MergeStands(c: Config, m: seq<byte>, m': seq<byte>, b: Block, next: nat, prev: nat)
    requires 5 <= c.headerSize && Roomy(c, b) && b.next <= next <= c.memSize < SIZE_MODULUS
    requires |m| == c.memSize + c.headerSize
    requires Stands(m, b, prev) && !b.used && m' == PutWord(PutWord(m, b.off, next), next + 2, b.off)
    ensures Rewritten(c, m, m', b.off, next, b.off)
    ensures Laid(m', [b.(next := next)], prev)
    ensures DataKept(c, m, m', [b.(next := next)], -1)
    ensures UsedOf(m', c.memSize) == UsedOf(m, c.memSize)
  {
    assert [b.(next := next)][1..] == [];
  }

  /** Combining block k with its successor. */
  lemma MergeLaid(c: Config, m: seq<byte>, m': seq<byte>, bs: seq<Block>, k: nat)
    requires 5 <= c.headerSize && Tiles(c, bs, 0, c.memSize) && Laid(m, bs, 0) && k + 1 < |bs|
    requires |m| == c.memSize + c.headerSize && c.memSize < SIZE_MODULUS && bs[k + 1].next <= c.memSize
    requires bs[k].off + 5 <= |m| && bs[k].off < SIZE_MODULUS
    requires m' == PutWord(PutWord(m, bs[k].off, bs[k + 1].next), bs[k + 1].next + 2, bs[k].off)
    requires !bs[k].used
    ensures Laid(m', Merge(bs, k), 0)
    ensures DataKept(c, m, m', Merge(bs, k), -1)
    ensures UsedOf(m', c.memSize) == UsedOf(m, c.memSize)
  {
    hide Tiles, DataKept, Laid;
    var b, pre, post := bs[k].(next := bs[k + 1].next), bs[..k], bs[k + 2..];
    LaidAround(c, m, bs, k, k + 2);
    MergeStands(c, m, m', bs[k], b.next, LastOff(pre, 0));
    Relaid(c, m, m', pre, [b], post, b.off, b.next, bs[k + 1].off);
    DataKeptAround(c, m, m', pre, [b], post, b.off, b.next, b.off, -1);
  }

  /** Writing a header at rest and linking it in behind the block at off. */
  ghost predicate Inserted(c: Config, m: seq<byte>, m': seq<byte>, off: nat, rest: nat, next: nat)
  {
    && |m'| == |m|
    && off + 5 <= |m| && rest + 5 <= |m| && next + 5 <= |m|
    && NextOf(m', off) == rest && PrevOf(m', off) == PrevOf(m, off)
    && NextOf(m', rest) == next && PrevOf(m', rest) == off && !UsedOf(m', rest)
    && (next < c.memSize ==> PrevOf(m', next) == rest)
    && (forall x :: 0 <= x < |m| && Untouched(x, off, rest, next) ==> m'[x] == m[x])
  }

  predicate Untouched(x: int, off: nat, rest: nat, next: nat)
  {
    !(off <= x < off + 5) && !(rest <= x < rest + 5) && x != next + 2 && x != next + 3
  }

  lemma InsertStands(c: Config, m: seq<byte>, m': seq<byte>, b1: Block, b2: Block, prev: nat)
    requires 5 <= c.headerSize && |m| == c.memSize + c.headerSize
    requires Roomy(c, b1) && Roomy(c, b2) && !b2.used && b1.next == b2.off && b2.next <= c.memSize
    requires Inserted(c, m, m', b1.off, b2.off, b2.next) && UsedOf(m', b1.off) == b1.used
    requires PrevOf(m, b1.off) == prev
    ensures Rewritten(c, m, m', b1.off, b2.next, b2.off)
    ensures Laid(m', [b1, b2], prev)
    ensures DataKept(c, m, m', [b1, b2], -1)
    ensures UsedOf(m', c.memSize) == UsedOf(m, c.memSize)
  {
    assert [b1, b2][1..] == [b2];
    assert [b2][1..] == [];
    assert Laid(m', [b2], b1.off);
    assert DataKept(c, m, m', [b2], -1);
  }

  /** Splitting block k (drop is 1), or moving the header of its successor (drop is 2). */
  lemma InsertLaid(c: Config, m: seq<byte>, m': seq<byte>, bs: seq<Block>, k: nat, drop: nat,
                   b1: Block, b2: Block)
    requires 5 <= c.headerSize && Tiles(c, bs, 0, c.memSize) && Laid(m, bs, 0)
    requires (drop == 1 || drop == 2) && k + drop <= |bs|
    requires |m| == c.memSize + c.headerSize
    requires Roomy(c, b1) && Roomy(c, b2) && !b2.used
    requires b1.off == bs[k].off && b1.next == b2.off && b2.next == bs[k + drop - 1].next
    requires Inserted(c, m, m', b1.off, b2.off, b2.next) && UsedOf(m', b1.off) == b1.used
    ensures Laid(m', bs[..k] + [b1, b2] + bs[k + drop..], 0)
    ensures DataKept(c, m, m', bs[..k] + [b1, b2] + bs[k + drop..], -1)
    ensures UsedOf(m', c.memSize) == UsedOf(m, c.memSize)
  {
    hide Tiles, DataKept, Laid;
    var pre, post := bs[..k], bs[k + drop..];
    LaidAround(c, m, bs, k, k + drop);
    InsertStands(c, m, m', b1, b2, LastOff(pre, 0));
    assert Laid(m', pre + [b1, b2] + post, 0) by {
      Relaid(c, m, m', pre, [b1, b2], post, b1.off, b2.next, bs[k + drop - 1].off);
    }
    assert DataKept(c, m, m', pre + [b1, b2] + post, -1) by {
      DataKeptAround(c, m, m', pre, [b1, b2], post, b1.off, b2.next, b2.off, -1);
    }
  }

  // ---------- Payload over several operations ----------

  lemma {:induction false} DataKeptBy(c: Config, m: seq<byte>, m': seq<byte>, bs: seq<Block>, b: Block, mine: int)
    requires DataKept(c, m, m', bs, mine) && b in bs && b.used && b.off != mine
    ensures Agree(m, m', b.off + c.headerSize, b.next)
  {
    if b != bs[0] {
      DataKeptBy(c, m, m', bs[1..], b, mine);
    }
  }

  lemma {:induction false} DataKeptThen(c: Config, m: seq<byte>, m': seq<byte>, m'': seq<byte>, bs: seq<Block>, mine: int)
    requires |m| == |m'| == |m''|
    requires DataKept(c, m, m', bs, mine) && DataKept(c, m', m'', bs, mine)
    ensures DataKept(c, m, m'', bs, mine)
  {
    if bs != [] {
      DataKeptThen(c, m, m', m'', bs[1..], mine);
    }
  }

  lemma {:induction false} DataUnchanged(c: Config, m: seq<byte>, bs: seq<Block>, mine: int)
    ensures DataKept(c, m, m, bs, mine)
  {
    if bs != [] {
      DataUnchanged(c, m, bs[1..], mine);
    }
  }

  lemma {:induction false} DataKeptExcept(c: Config, m: seq<byte>, m': seq<byte>, bs: seq<Block>, mine: int)
    requires DataKept(c, m, m', bs, -1)
    ensures DataKept(c, m, m', bs, mine)
  {
    if bs != [] {
      DataKeptExcept(c, m, m', bs[1..], mine);
    }
  }

  lemma DataKeptParts(c: Config, m: seq<byte>, m': seq<byte>, pre: seq<Block>, mid: seq<Block>, post: seq<Block>, mine: int)
    ensures DataKept(c, m, m', pre + mid + post, mine)
            <==> DataKept(c, m, m', pre, mine) && DataKept(c, m, m', mid, mine) && DataKept(c, m, m', post, mine)
  {
    DataKeptJoin(c, m, m', pre, mid, mine);
    DataKeptJoin(c, m, m', pre + mid, post, mine);
  }

  /** Freeing or trimming leaves fewer data bytes to keep. */
  lemma FreeKeepsData(c: Config, m: seq<byte>, m': seq<byte>, bs: seq<Block>, k: nat, mine: int)
    requires DataKept(c, m, m', bs, mine) && k < |bs|
    ensures DataKept(c, m, m', FreeAt(bs, k), mine)
  {
    var lo, hi := FreeLow(bs, k), FreeHigh(bs, k);
    var b := Block(bs[lo].off, bs[hi].next, false);
    FreeShape(bs, k);
    assert bs == bs[..lo] + bs[lo..hi + 1] + bs[hi + 1..];
    DataKeptParts(c, m, m', bs[..lo], bs[lo..hi + 1], bs[hi + 1..], mine);
    assert [b][1..] == [];
    DataKeptParts(c, m, m', bs[..lo], [b], bs[hi + 1..], mine);
  }

  lemma MergeKeepsData(c: Config, m: seq<byte>, m': seq<byte>, bs: seq<Block>, k: nat, mine: int)
    requires DataKept(c, m, m', bs, mine) && k + 1 < |bs| && !bs[k].used
    ensures DataKept(c, m, m', Merge(bs, k), mine)
  {
    var b := bs[k].(next := bs[k + 1].next);
    assert bs == bs[..k] + bs[k..k + 2] + bs[k + 2..];
    DataKeptParts(c, m, m', bs[..k], bs[k..k + 2], bs[k + 2..], mine);
    assert [b][1..] == [];
    DataKeptParts(c, m, m', bs[..k], [b], bs[k + 2..], mine);
  }

  lemma SplitKeepsData(c: Config, m: seq<byte>, m': seq<byte>, bs: seq<Block>, k: nat, drop: nat,
                       b1: Block, b2: Block, mine: int)
    requires DataKept(c, m, m', bs, mine) && 0 < drop && k + drop <= |bs|
    requires !b2.used
    requires b1.off == mine || (bs[k].used && b1.off == bs[k].off && b1.next <= bs[k].next)
    ensures DataKept(c, m, m', bs[..k] + [b1, b2] + bs[k + drop..], mine)
  {
    assert bs == bs[..k] + bs[k..k + drop] + bs[k + drop..];
    DataKeptParts(c, m, m', bs[..k], bs[k..k + drop], bs[k + drop..], mine);
    assert bs[k..k + drop][0] == bs[k];
    assert [b1, b2][1..] == [b2];
    assert [b2][1..] == [];
    assert DataKept(c, m, m', [b2], mine);
    DataKeptParts(c, m, m', bs[..k], [b1, b2], bs[k + drop..], mine);
  }

  lemma TrimKeepsData(c: Config, m: seq<byte>, m': seq<byte>, bs: seq<Block>, k: nat, size: nat, mine: int)
    requires DataKept(c, m, m', bs, mine) && k < |bs| && bs[k].used
    ensures DataKept(c, m, m', TrimAt(c, bs, k, size), mine)
  {
    var b := bs[k];
    var rest := b.off + c.headerSize + size;
    if DataSize(c, b) <= size {
    } else if k + 1 < |bs| && !bs[k + 1].used {
      SplitKeepsData(c, m, m', bs, k, 2, b.(next := rest), Block(rest, bs[k + 1].next, false), mine);
    } else if size + c.headerSize + c.minData <= DataSize(c, b) {
      SplitKeepsData(c, m, m', bs, k, 1, b.(next := rest), Block(rest, b.next, false), mine);
    }
  }

  lemma TakeKeepsData(c: Config, m: seq<byte>, m': seq<byte>, bs: seq<Block>, k: nat, size: nat)
    requires DataKept(c, m, m', bs, -1) && k < |bs| && Fits(c, bs[k], size)
    ensures DataKept(c, m, m', Take(c, bs, k, size), bs[k].off)
  {
    var b := bs[k];
    DataKeptExcept(c, m, m', bs, b.off);
    if size + c.headerSize + c.minData <= DataSize(c, b) {
      var rest := b.off + c.headerSize + size;
      SplitKeepsData(c, m, m', bs, k, 1, Block(b.off, rest, true), Block(rest, b.next, false), b.off);
    } else {
      var b' := b.(used := true);
      assert bs == bs[..k] + [b] + bs[k + 1..];
      assert bs[k := b'] == bs[..k] + [b'] + bs[k + 1..];
      DataKeptParts(c, m, m', bs[..k], [b], bs[k + 1..], b.off);
      assert [b'][1..] == [];
      DataKeptParts(c, m, m', bs[..k], [b'], bs[k + 1..], b.off);
    }
  }

  lemma ApplyKeepsData(c: Config, m: seq<byte>, m': seq<byte>, bs: seq<Block>, op: Op, mine: int)
    requires 0 < c.alignment && DataKept(c, m, m', bs, mine)
    ensures DataKept(c, m, m', Apply(c, bs, op), mine)
  {
    var k := Find(c, bs, op.rmem);
    if k < |bs| {
      if op.Free? {
        FreeKeepsData(c, m, m', bs, k, mine);
      } else {
        TrimKeepsData(c, m, m', bs, k, RoundSize(c, op.size), mine);
      }
    }
  }

  /** One more operation in a row of operations. */
  lemma DataKeptThenApply(c: Config, m: seq<byte>, m': seq<byte>, m'': seq<byte>, bs: seq<Block>, op: Op, bs': seq<Block>)
    requires 0 < c.alignment && |m| == |m'| == |m''|
    requires bs' == bs || bs' == Apply(c, bs, op)
    requires DataKept(c, m, m', bs, -1) && DataKept(c, m', m'', bs', -1)
    ensures DataKept(c, m, m'', bs', -1)
  {
    ApplyKeepsData(c, m, m', bs, op, -1);
    DataKeptThen(c, m, m', m'', bs', -1);
  }

  /** Splitting block k while giving it out: insert the header of the rest, then set the flag. */
  lemma TakeSplitLaid(c: Config, m: seq<byte>, m': seq<byte>, m'': seq<byte>, bs: seq<Block>, k: nat, rest: nat)
    requires 5 <= c.headerSize && Tiles(c, bs, 0, c.memSize) && Laid(m, bs, 0) && k < |bs|
    requires |m| == c.memSize + c.headerSize && !bs[k].used
    requires bs[k].off + c.headerSize + c.minData <= rest
    requires rest + c.headerSize + c.minData <= bs[k].next <= c.memSize
    requires Inserted(c, m, m', bs[k].off, rest, bs[k].next)
    requires m'' == m'[bs[k].off + 4 := 1]
    ensures var bs' := bs[..k] + [Block(bs[k].off, rest, true), Block(rest, bs[k].next, false)] + bs[k + 1..];
            && Laid(m'', bs', 0)
            && DataKept(c, m, m'', bs', bs[k].off)
            && UsedOf(m'', c.memSize) == UsedOf(m, c.memSize)
  {
    var b1, b2 := Block(bs[k].off, rest, true), Block(rest, bs[k].next, false);
    InsertLaid(c, m, m'', bs, k, 1, b1, b2);
    DataKeptExcept(c, m, m'', bs[..k] + [b1, b2] + bs[k + 1..], bs[k].off);
  }

  lemma {:induction false} ApplyAllKeepsData(c: Config, m: seq<byte>, m': seq<byte>, bs: seq<Block>, ops: seq<Op>, mine: int)
    requires 0 < c.alignment && DataKept(c, m, m', bs, mine)
    ensures DataKept(c, m, m', ApplyAll(c, bs, ops), mine)
  {
    if ops != [] {
      ApplyAllKeepsData(c, m, m', bs, ops[..|ops| - 1], mine);
      ApplyKeepsData(c, m, m', ApplyAll(c, bs, ops[..|ops| - 1]), ops[|ops| - 1], mine);
    }
  }

  /** One more window in a row of windows. */
  lemma DataKeptThenWindow(c: Config, m: seq<byte>, m': seq<byte>, m'': seq<byte>, bs: seq<Block>,
                           env: seq<seq<Op>>, i: nat, j: nat, mine: int, except: int)
    requires 0 < c.alignment && |m| == |m'| == |m''| && i <= j <= |env|
    requires DataKept(c, m, m', bs, except)
    requires DataKept(c, m', m'', AfterWindows(c, bs, env, i, j, mine), -1)
    ensures DataKept(c, m, m'', AfterWindows(c, bs, env, i, j, mine), except)
  {
    var bs' := AfterWindows(c, bs, env, i, j, mine);
    ApplyAllKeepsData(c, m, m', bs, Others(c, Flatten(env[i..j]), mine), except);
    DataKeptExcept(c, m', m'', bs', except);
    DataKeptThen(c, m, m', m'', bs', except);
  }
}

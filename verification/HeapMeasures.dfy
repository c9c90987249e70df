/** The lowest unused block, the live allocations, and the bytes in use. */
module HeapMeasures {
  import opened HeapBlocks
  import opened HeapLaws
  import Multiples

  // ---------- The lowest unused block ----------

  predicate AllUsed(bs: seq<Block>)
  {
    bs == [] || (bs[0].used && AllUsed(bs[1..]))
  }

  lemma {:induction false} LowestJoin(c: Config, a: seq<Block>, b: seq<Block>)
    ensures LowestFree(c, a + b) == if AllUsed(a) then LowestFree(c, b) else LowestFree(c, a)
    ensures AllUsed(a + b) <==> AllUsed(a) && AllUsed(b)
  {
    if a == [] {
      assert a + b == b;
    } else {
      LowestJoin(c, a[1..], b);
      assert (a + b)[1..] == a[1..] + b;
    }
  }

  lemma {:induction false} LowestBounds(c: Config, bs: seq<Block>, lo: int, hi: int)
    requires 0 < c.headerSize && Tiles(c, bs, lo, hi)
    ensures lo <= hi
    ensures if AllUsed(bs) then LowestFree(c, bs) == c.memSize else lo <= LowestFree(c, bs) < hi
  {
    if bs != [] {
      LowestBounds(c, bs[1..], bs[0].next, hi);
    }
  }

  /** A block lies at or below the lowest unused one exactly when all before it are used. */
  lemma BelowLowest(c: Config, bs: seq<Block>, k: nat)
    requires 0 < c.headerSize && Tiles(c, bs, 0, c.memSize) && k < |bs|
    ensures AllUsed(bs[..k]) <==> bs[k].off <= LowestFree(c, bs)
    ensures AllUsed(bs[..k]) && !bs[k].used ==> LowestFree(c, bs) == bs[k].off
    ensures bs[k].used ==> LowestFree(c, bs) != bs[k].off
  {
    TilesPart(c, bs, k, 0, c.memSize);
    LowestBounds(c, bs[..k], 0, bs[k].off);
    LowestBounds(c, bs[k..], bs[k].off, c.memSize);
    if bs[k].used {
      LowestBounds(c, bs[k..][1..], bs[k].next, c.memSize);
    }
    assert bs == bs[..k] + bs[k..];
    LowestJoin(c, bs[..k], bs[k..]);
  }

  /** A walk over used blocks that stops at an unused one, or at the end, has found the lowest. */
  lemma WalkFindsLowest(c: Config, bs: seq<Block>, k: nat)
    requires 0 < c.headerSize && Tiles(c, bs, 0, c.memSize) && k <= |bs| && AllUsed(bs[..k])
    requires k < |bs| ==> !bs[k].used
    ensures LowestFree(c, bs) == if k < |bs| then bs[k].off else c.memSize
  {
    if k < |bs| {
      BelowLowest(c, bs, k);
    } else {
      assert bs[..k] == bs;
      LowestBounds(c, bs, 0, c.memSize);
    }
  }

  lemma {:induction false} LowestIndex(c: Config, bs: seq<Block>) returns (k: nat)
    ensures k <= |bs| && AllUsed(bs[..k])
    ensures LowestFree(c, bs) == if k < |bs| then bs[k].off else c.memSize
  {
    if bs == [] || !bs[0].used {
      k := 0;
    } else {
      k := LowestIndex(c, bs[1..]);
      assert bs[..k + 1][1..] == bs[1..][..k];
      k := k + 1;
    }
  }

  /** Exactly the blocks before the first fit do not fit. */
  lemma {:induction false} FirstFitIsFirst(c: Config, bs: seq<Block>, size: nat, i: nat)
    requires i < |bs|
    ensures i < FirstFit(c, bs, size) ==> !Fits(c, bs[i], size)
    ensures i <= FirstFit(c, bs, size) && !Fits(c, bs[i], size) ==> i < FirstFit(c, bs, size)
  {
    if 0 < i {
      FirstFitIsFirst(c, bs[1..], size, i - 1);
    }
  }

  /** The search fails exactly when no block anywhere fits. */
  lemma SearchIsComplete(c: Config, bs: seq<Block>, size: nat)
    ensures FirstFit(c, bs, size) == |bs| <==> forall i :: 0 <= i < |bs| ==> !Fits(c, bs[i], size)
  {
    if FirstFit(c, bs, size) == |bs| {
      forall i | 0 <= i < |bs|
        ensures !Fits(c, bs[i], size)
      {
        FirstFitIsFirst(c, bs, size, i);
      }
    }
  }

  lemma {:induction false} FindIsFirst(c: Config, bs: seq<Block>, rmem: int, i: nat)
    requires i < |bs|
    ensures i < Find(c, bs, rmem) ==> !(bs[i].used && bs[i].off + c.headerSize == rmem)
    ensures i <= Find(c, bs, rmem) && !(bs[i].used && bs[i].off + c.headerSize == rmem) ==> i < Find(c, bs, rmem)
  {
    if 0 < i {
      FindIsFirst(c, bs[1..], rmem, i - 1);
    }
  }

  lemma {:induction false} UsedDoNotFit(c: Config, bs: seq<Block>, k: nat, size: nat)
    requires k <= |bs| && AllUsed(bs[..k])
    ensures k <= FirstFit(c, bs, size)
  {
    if 0 < k {
      assert bs[..k][1..] == bs[1..][..k - 1];
      UsedDoNotFit(c, bs[1..], k - 1, size);
    }
  }

  /** Where the scan of `mem_malloc` ends by its bound, no block can fit any more. */
  lemma BoundIsComplete(c: Config, bs: seq<Block>, k: nat, size: nat)
    requires 0 < c.headerSize && Tiles(c, bs, 0, c.memSize) && k <= FirstFit(c, bs, size)
    requires k < |bs| ==> c.memSize - size <= bs[k].off
    ensures FirstFit(c, bs, size) == |bs|
  {
    var f := FirstFit(c, bs, size);
    if f < |bs| {
      TilesPart(c, bs, f, 0, c.memSize);
      TilesPart(c, bs[f..][1..], 0, bs[f].next, c.memSize);
      if k < f {
        TilesPart(c, bs, k, 0, c.memSize);
        Ordered(c, bs, k, f, 0, c.memSize);
      }
    }
  }

  lemma WalkStep(c: Config, bs: seq<Block>, k: nat)
    requires k < |bs| && AllUsed(bs[..k]) && bs[k].used
    ensures AllUsed(bs[..k + 1])
  {
    LowestJoin(c, bs[..k], [bs[k]]);
    assert bs[..k + 1] == bs[..k] + [bs[k]];
  }

  /** The lowest unused offset of a list given in three parts, the last of them a tail of a
      tiling and the middle one not all used. */
  lemma LowestOfParts(c: Config, pre: seq<Block>, mid: seq<Block>, post: seq<Block>)
    ensures LowestFree(c, pre + mid + post)
            == if !AllUsed(pre) then LowestFree(c, pre)
               else if !AllUsed(mid) then LowestFree(c, mid)
               else LowestFree(c, post)
  {
    LowestJoin(c, pre, mid);
    LowestJoin(c, pre + mid, post);
  }

  lemma LowestAround(c: Config, bs: seq<Block>, k: nat, m: nat)
    requires k < m <= |bs|
    ensures LowestFree(c, bs)
            == if !AllUsed(bs[..k]) then LowestFree(c, bs[..k])
               else if !AllUsed(bs[k..m]) then LowestFree(c, bs[k..m])
               else LowestFree(c, bs[m..])
  {
    assert bs == bs[..k] + bs[k..m] + bs[m..];
    LowestOfParts(c, bs[..k], bs[k..m], bs[m..]);
  }

  /** Freeing a block lowers the lowest unused offset to it, or leaves it alone. */
  lemma FreeLowest(c: Config, bs: seq<Block>, k: nat)
    requires 0 < c.headerSize && WellFormed(c, bs) && k < |bs| && bs[k].used
    ensures LowestFree(c, FreeAt(bs, k))
            == if bs[k].off < LowestFree(c, bs) then bs[k].off else LowestFree(c, bs)
  {
    var lo, hi := FreeLow(bs, k), FreeHigh(bs, k);
    var b := Block(bs[lo].off, bs[hi].next, false);
    FreeShape(bs, k);
    LowestOfParts(c, bs[..lo], [b], bs[hi + 1..]);
    BelowLowest(c, bs, k);
    BelowLowest(c, bs, lo);
    LowestAround(c, bs, lo, hi + 1);
    if lo < k {
      LowestJoin(c, bs[..lo], [bs[lo]]);
      assert bs[..k] == bs[..lo] + [bs[lo]];
    }
  }

  /** Trimming moves the unused block behind the trimmed one down, or creates one there. */
  lemma TrimLowest(c: Config, bs: seq<Block>, k: nat, size: nat)
    requires 0 < c.headerSize && WellFormed(c, bs) && k < |bs| && bs[k].used
    ensures var low := LowestFree(c, bs);
            var rest := bs[k].off + c.headerSize + size;
            LowestFree(c, TrimAt(c, bs, k, size))
            == if DataSize(c, bs[k]) <= size then low
               else if k + 1 < |bs| && !bs[k + 1].used then
                 (if low == bs[k + 1].off then rest else low)
               else if size + c.headerSize + c.minData <= DataSize(c, bs[k]) then
                 (if rest < low then rest else low)
               else low
  {
    var b := bs[k];
    var rest := b.off + c.headerSize + size;
    if DataSize(c, b) <= size {
    } else if k + 1 < |bs| && !bs[k + 1].used {
      TrimMoveLowest(c, bs, k, rest);
    } else if size + c.headerSize + c.minData <= DataSize(c, b) {
      TrimSplitLowest(c, bs, k, rest);
    }
  }

  lemma TrimMoveLowest(c: Config, bs: seq<Block>, k: nat, rest: nat)
    requires 0 < c.headerSize && WellFormed(c, bs) && k + 1 < |bs| && bs[k].used && !bs[k + 1].used
    ensures var r := bs[..k] + [bs[k].(next := rest), Block(rest, bs[k + 1].next, false)] + bs[k + 2..];
            LowestFree(c, r) == if LowestFree(c, bs) == bs[k + 1].off then rest else LowestFree(c, bs)
  {
    var b1, b2 := bs[k].(next := rest), Block(rest, bs[k + 1].next, false);
    LowestOfParts(c, bs[..k], [b1, b2], bs[k + 2..]);
    LowestAround(c, bs, k, k + 2);
    TilesPart(c, bs, k, 0, c.memSize);
    TilesPart(c, bs, k + 1, 0, c.memSize);
    LowestBounds(c, bs[..k], 0, bs[k].off);
    LowestJoin(c, [bs[k]], [bs[k + 1]]);
    assert bs[k..k + 2] == [bs[k]] + [bs[k + 1]];
    LowestJoin(c, [b1], [b2]);
    assert [b1, b2] == [b1] + [b2];
    assert bs[k].off < bs[k + 1].off by { TilesPart(c, bs[k..][1..], 0, bs[k].next, c.memSize); }
  }

  lemma TrimSplitLowest(c: Config, bs: seq<Block>, k: nat, rest: nat)
    requires 0 < c.headerSize && WellFormed(c, bs) && k < |bs| && bs[k].used && bs[k].off <= rest < bs[k].next
    ensures var r := bs[..k] + [bs[k].(next := rest), Block(rest, bs[k].next, false)] + bs[k + 1..];
            LowestFree(c, r) == if rest < LowestFree(c, bs) then rest else LowestFree(c, bs)
  {
    var b1, b2 := bs[k].(next := rest), Block(rest, bs[k].next, false);
    LowestOfParts(c, bs[..k], [b1, b2], bs[k + 1..]);
    LowestAround(c, bs, k, k + 1);
    Around(c, bs, k, k + 1);
    LowestBounds(c, bs[..k], 0, bs[k].off);
    LowestBounds(c, bs[k + 1..], bs[k].next, c.memSize);
    assert bs[k..k + 1] == [bs[k]];
    LowestJoin(c, [b1], [b2]);
    assert [b1, b2] == [b1] + [b2];
  }

  // ---------- The order of the blocks ----------

  lemma {:induction false} Ordered(c: Config, bs: seq<Block>, i: nat, j: nat, lo: int, hi: int)
    requires Tiles(c, bs, lo, hi) && i < j < |bs|
    ensures bs[i].next <= bs[j].off
    ensures j == i + 1 ==> bs[i].next == bs[j].off
  {
    TilesPart(c, bs, i, lo, hi);
    assert bs[i..][1..] == bs[i + 1..];
    TilesPart(c, bs[i + 1..], j - i - 1, bs[i].next, hi);
  }

  /** Two live allocations do not share a byte, and each lies inside the arena, is aligned and
      has at least the minimum size. */
  lemma LiveBlocksAreDisjoint(c: Config, bs: seq<Block>, i: nat, j: nat)
    requires ValidConfig(c) && WellFormed(c, bs) && i < j < |bs|
    ensures bs[i].off + c.headerSize + c.minData <= bs[i].next <= bs[j].off
    ensures bs[j].off + c.headerSize + c.minData <= bs[j].next <= c.memSize
    ensures (bs[i].off + c.headerSize) % c.alignment == 0
    ensures (bs[j].off + c.headerSize) % c.alignment == 0
  {
    Ordered(c, bs, i, j, 0, c.memSize);
    Around(c, bs, i, i + 1);
    Around(c, bs, j, j + 1);
    TilesPart(c, bs[j + 1..], 0, bs[j].next, c.memSize);
    Multiples.Sum(bs[i].off, c.headerSize, c.alignment);
    Multiples.Sum(bs[j].off, c.headerSize, c.alignment);
  }

  /** A live block is found by its data address. */
  lemma FindsLive(c: Config, bs: seq<Block>, k: nat)
    requires 0 < c.headerSize && Tiles(c, bs, 0, c.memSize) && k < |bs| && bs[k].used
    ensures Find(c, bs, bs[k].off + c.headerSize) == k
  {
    var f := Find(c, bs, bs[k].off + c.headerSize);
    FindIsFirst(c, bs, bs[k].off + c.headerSize, k);
    if f < k {
      TilesPart(c, bs, f, 0, c.memSize);
      Ordered(c, bs, f, k, 0, c.memSize);
    }
  }

  // ---------- Conservation ----------

  /** The bytes a block has in use, header included. */
  function UsedExtent(b: Block): (n: int)
  {
    if b.used then b.next - b.off else 0
  }

  function UsedBytes(bs: seq<Block>): (n: int)
  {
    if bs == [] then 0 else UsedExtent(bs[0]) + UsedBytes(bs[1..])
  }

  function UnusedBytes(bs: seq<Block>): (n: int)
  {
    if bs == [] then 0
    else (if bs[0].used then 0 else bs[0].next - bs[0].off) + UnusedBytes(bs[1..])
  }

  lemma {:induction false} UsedBytesJoin(a: seq<Block>, b: seq<Block>)
    ensures UsedBytes(a + b) == UsedBytes(a) + UsedBytes(b)
  {
    if a == [] {
      assert a + b == b;
    } else {
      UsedBytesJoin(a[1..], b);
      assert (a + b)[1..] == a[1..] + b;
    }
  }

  lemma UsedBytesOfParts(pre: seq<Block>, mid: seq<Block>, post: seq<Block>)
    ensures UsedBytes(pre + mid + post) == UsedBytes(pre) + UsedBytes(mid) + UsedBytes(post)
  {
    hide UsedBytes;
    UsedBytesJoin(pre, mid);
    UsedBytesJoin(pre + mid, post);
  }

  lemma UsedBytesAround(bs: seq<Block>, k: nat, m: nat)
    requires k < m <= |bs|
    ensures UsedBytes(bs) == UsedBytes(bs[..k]) + UsedBytes(bs[k..m]) + UsedBytes(bs[m..])
  {
    hide UsedBytes;
    assert bs == bs[..k] + bs[k..m] + bs[m..];
    UsedBytesOfParts(bs[..k], bs[k..m], bs[m..]);
  }

  lemma UsedBytesOfPair(b1: Block, b2: Block)
    ensures UsedBytes([b1]) == UsedExtent(b1)
    ensures UsedBytes([b1, b2]) == UsedExtent(b1) + UsedExtent(b2)
  {
    assert [b1][1..] == [];
    assert [b1, b2][1..] == [b2];
    assert [b2][1..] == [];
    assert UsedBytes([b2]) == UsedExtent(b2);
  }

  lemma UsedBytesOfRun(bs: seq<Block>, k: nat, drop: nat)
    requires k + drop <= |bs| && (drop == 1 || (drop == 2 && !bs[k + 1].used))
    ensures UsedBytes(bs[k..k + drop]) == UsedExtent(bs[k])
  {
    hide UsedBytes;
    if drop == 1 {
      assert bs[k..k + drop] == [bs[k]];
      UsedBytesOfPair(bs[k], bs[k]);
    } else {
      assert bs[k..k + drop] == [bs[k], bs[k + 1]];
      UsedBytesOfPair(bs[k], bs[k + 1]);
    }
  }

  /** Putting two blocks in the place of block k, or of it and an unused successor. */
  lemma SplitUsedBytes(bs: seq<Block>, k: nat, drop: nat, b1: Block, b2: Block)
    requires k + drop <= |bs| && (drop == 1 || (drop == 2 && !bs[k + 1].used))
    ensures UsedBytes(bs[..k] + [b1, b2] + bs[k + drop..])
            == UsedBytes(bs) - UsedExtent(bs[k]) + UsedExtent(b1) + UsedExtent(b2)
  {
    hide UsedBytes;
    UsedBytesOfRun(bs, k, drop);
    UsedBytesOfPair(b1, b2);
    UsedBytesOfParts(bs[..k], [b1, b2], bs[k + drop..]);
    UsedBytesAround(bs, k, k + drop);
  }

  /** Used and unused extents add up to the arena. */
  lemma {:induction false} ExtentsSumUp(c: Config, bs: seq<Block>, lo: int, hi: int)
    requires Tiles(c, bs, lo, hi)
    ensures UsedBytes(bs) + UnusedBytes(bs) == hi - lo
    ensures 0 <= UsedBytes(bs) && 0 <= UnusedBytes(bs)
  {
    if bs != [] {
      ExtentsSumUp(c, bs[1..], bs[0].next, hi);
    }
  }

  lemma UpdateUsedBytes(bs: seq<Block>, k: nat, b: Block)
    requires k < |bs|
    ensures UsedBytes(bs[k := b]) == UsedBytes(bs) - UsedExtent(bs[k]) + UsedExtent(b)
  {
    hide UsedBytes;
    UsedBytesOfRun(bs, k, 1);
    UsedBytesAround(bs, k, k + 1);
    UsedBytesOfPair(b, b);
    UsedBytesOfParts(bs[..k], [b], bs[k + 1..]);
    assert bs[k := b] == bs[..k] + [b] + bs[k + 1..];
  }

  /** What giving out block k adds to the `used` statistic. */
  lemma TakeUsedBytes(c: Config, bs: seq<Block>, k: nat, size: nat)
    requires k < |bs| && Fits(c, bs[k], size)
    ensures UsedBytes(Take(c, bs, k, size)) == UsedBytes(bs)
            + if size + c.headerSize + c.minData <= DataSize(c, bs[k]) then size + c.headerSize
              else bs[k].next - bs[k].off
  {
    hide UsedBytes;
    var b := bs[k];
    if size + c.headerSize + c.minData <= DataSize(c, b) {
      var rest := b.off + c.headerSize + size;
      SplitUsedBytes(bs, k, 1, Block(b.off, rest, true), Block(rest, b.next, false));
    } else {
      UpdateUsedBytes(bs, k, b.(used := true));
    }
  }

  /** The unused neighbours that freeing block k takes in. */
  lemma FreeNeighbours(bs: seq<Block>, k: nat)
    requires k < |bs|
    ensures bs[..k] == bs[..FreeLow(bs, k)]
            || (bs[..k] == bs[..FreeLow(bs, k)] + [bs[k - 1]] && !bs[k - 1].used)
    ensures bs[k + 1..] == bs[FreeHigh(bs, k) + 1..]
            || (bs[k + 1..] == [bs[k + 1]] + bs[FreeHigh(bs, k) + 1..] && !bs[k + 1].used)
  {
  }

  lemma FreeNeighboursUsedBytes(bs: seq<Block>, k: nat)
    requires k < |bs|
    ensures UsedBytes(bs[..k]) == UsedBytes(bs[..FreeLow(bs, k)])
    ensures UsedBytes(bs[k + 1..]) == UsedBytes(bs[FreeHigh(bs, k) + 1..])
  {
    FreeNeighbours(bs, k);
    if 0 < k {
      UsedBytesJoin(bs[..FreeLow(bs, k)], [bs[k - 1]]);
    }
    if k + 1 < |bs| {
      UsedBytesJoin([bs[k + 1]], bs[FreeHigh(bs, k) + 1..]);
    }
  }

  /** What freeing block k takes off the `used` statistic. */
  lemma FreeUsedBytes(bs: seq<Block>, k: nat)
    requires k < |bs| && bs[k].used
    ensures UsedBytes(FreeAt(bs, k)) == UsedBytes(bs) - (bs[k].next - bs[k].off)
  {
    hide UsedBytes, FreeAt, FreeLow, FreeHigh;
    var lo, hi := FreeLow(bs, k), FreeHigh(bs, k);
    var b := Block(bs[lo].off, bs[hi].next, false);
    FreeShape(bs, k);
    FreeNeighboursUsedBytes(bs, k);
    UsedBytesOfParts(bs[..lo], [b], bs[hi + 1..]);
    UsedBytesAround(bs, k, k + 1);
    assert bs[k..k + 1] == [bs[k]];
    UsedBytesOfPair(bs[k], b);
    UsedBytesOfPair(b, b);
  }

  /** Trimming frees something: the next block is unused, or a new one fits in. */
  predicate TrimFrees(c: Config, bs: seq<Block>, k: nat, size: nat)
    requires k < |bs|
  {
    || (k + 1 < |bs| && !bs[k + 1].used)
    || size + c.headerSize + c.minData <= DataSize(c, bs[k])
  }

  /** What trimming block k takes off the `used` statistic. */
  lemma TrimUsedBytes(c: Config, bs: seq<Block>, k: nat, size: nat)
    requires k < |bs| && bs[k].used && size < DataSize(c, bs[k])
    ensures UsedBytes(TrimAt(c, bs, k, size)) == UsedBytes(bs)
            - if TrimFrees(c, bs, k, size) then DataSize(c, bs[k]) - size else 0
  {
    hide UsedBytes;
    var b := bs[k];
    var rest := b.off + c.headerSize + size;
    if k + 1 < |bs| && !bs[k + 1].used {
      SplitUsedBytes(bs, k, 2, b.(next := rest), Block(rest, bs[k + 1].next, false));
    } else if size + c.headerSize + c.minData <= DataSize(c, b) {
      SplitUsedBytes(bs, k, 1, b.(next := rest), Block(rest, b.next, false));
    }
  }

  // ---------- Coalescing ----------

  /** The offsets of the live blocks. */
  function Live(bs: seq<Block>): (offs: set<nat>)
  {
    if bs == [] then {}
    else (if bs[0].used then {bs[0].off} else {}) + Live(bs[1..])
  }

  lemma {:induction false} LiveJoin(a: seq<Block>, b: seq<Block>)
    ensures Live(a + b) == Live(a) + Live(b)
  {
    if a == [] {
      assert a + b == b;
    } else {
      LiveJoin(a[1..], b);
      assert (a + b)[1..] == a[1..] + b;
    }
  }

  lemma {:induction false} LiveBounds(c: Config, bs: seq<Block>, lo: int, hi: int)
    requires Tiles(c, bs, lo, hi)
    ensures lo <= hi
    ensures forall o :: o in Live(bs) ==> lo <= o
    ensures 0 < c.headerSize ==> forall o :: o in Live(bs) ==> o < hi
  {
    if bs != [] {
      LiveBounds(c, bs[1..], bs[0].next, hi);
    }
  }

  lemma FreeNeighboursLive(bs: seq<Block>, k: nat)
    requires k < |bs|
    ensures Live(bs[..k]) == Live(bs[..FreeLow(bs, k)])
    ensures Live(bs[k + 1..]) == Live(bs[FreeHigh(bs, k) + 1..])
  {
    FreeNeighbours(bs, k);
    if 0 < k {
      LiveJoin(bs[..FreeLow(bs, k)], [bs[k - 1]]);
    }
    if k + 1 < |bs| {
      LiveJoin([bs[k + 1]], bs[FreeHigh(bs, k) + 1..]);
    }
  }

  lemma LiveOfOne(b: Block)
    ensures Live([b]) == if b.used then {b.off} else {}
  {
    assert [b][1..] == [];
  }

  lemma LiveOfParts(pre: seq<Block>, b: Block, post: seq<Block>)
    ensures Live(pre + [b] + post) == Live(pre) + (if b.used then {b.off} else {}) + Live(post)
  {
    LiveJoin(pre, [b]);
    LiveJoin(pre + [b], post);
    assert Live([b]) == if b.used then {b.off} else {};
  }

  lemma LiveIsElsewhere(c: Config, bs: seq<Block>, k: nat)
    requires 0 < c.headerSize && Tiles(c, bs, 0, c.memSize) && k < |bs|
    ensures bs[k].off !in Live(bs[..k]) && bs[k].off !in Live(bs[k + 1..])
  {
    TilesPart(c, bs, k, 0, c.memSize);
    assert bs[k..][1..] == bs[k + 1..];
    LiveBounds(c, bs[..k], 0, bs[k].off);
    LiveBounds(c, bs[k + 1..], bs[k].next, c.memSize);
  }

  lemma LiveWithout(bs: seq<Block>, k: nat)
    requires k < |bs| && bs[k].used
    requires bs[k].off !in Live(bs[..k]) && bs[k].off !in Live(bs[k + 1..])
    ensures Live(bs) - {bs[k].off} == Live(bs[..k]) + Live(bs[k + 1..])
  {
    hide Live;
    LiveOfParts(bs[..k], bs[k], bs[k + 1..]);
    assert bs == bs[..k] + [bs[k]] + bs[k + 1..];
  }

  lemma FreedLive(bs: seq<Block>, k: nat)
    requires k < |bs|
    ensures Live(FreeAt(bs, k)) == Live(bs[..k]) + Live(bs[k + 1..])
  {
    hide Live;
    var lo, hi := FreeLow(bs, k), FreeHigh(bs, k);
    FreeShape(bs, k);
    FreeNeighboursLive(bs, k);
    LiveOfParts(bs[..lo], Block(bs[lo].off, bs[hi].next, false), bs[hi + 1..]);
  }

  /** Freeing block k takes exactly its offset out of the live set. */
  lemma FreeLive(c: Config, bs: seq<Block>, k: nat)
    requires 0 < c.headerSize && Tiles(c, bs, 0, c.memSize) && k < |bs| && bs[k].used
    ensures Live(FreeAt(bs, k)) == Live(bs) - {bs[k].off}
  {
    hide Live, Tiles;
    LiveIsElsewhere(c, bs, k);
    LiveWithout(bs, k);
    FreedLive(bs, k);
  }

  lemma FirstIsUnused(bs: seq<Block>)
    requires bs != [] && Live(bs) == {}
    ensures !bs[0].used && Live(bs[1..]) == {}
  {
    assert bs[0].off in Live(bs) || !bs[0].used;
  }

  /** Without live blocks a well formed list is the initial one. */
  lemma NothingLive(c: Config, bs: seq<Block>)
    requires 0 < c.memSize && Tiles(c, bs, 0, c.memSize) && Coalesced(bs) && Live(bs) == {}
    ensures bs == Initial(c)
  {
    FirstIsUnused(bs);
    if 2 <= |bs| {
      FirstIsUnused(bs[1..]);
    } else {
      assert bs[1..] == [];
    }
  }

  lemma {:induction false} FreesShrinkLive(c: Config, bs: seq<Block>, ops: seq<Op>)
    requires ValidConfig(c) && WellFormed(c, bs)
    requires forall op :: op in ops ==> op.Free?
    ensures WellFormed(c, ApplyAll(c, bs, ops))
    ensures forall o :: o in Live(ApplyAll(c, bs, ops))
                        ==> o in Live(bs) && Free(o + c.headerSize) !in ops
  {
    if ops != [] {
      var front, op := ops[..|ops| - 1], ops[|ops| - 1];
      var r := ApplyAll(c, bs, front);
      FreesShrinkLive(c, bs, front);
      ApplyKeeps(c, r, op);
      FreeShrinksLive(c, r, op);
      assert ops == front + [op];
    }
  }

  lemma FreeShrinksLive(c: Config, bs: seq<Block>, op: Op)
    requires ValidConfig(c) && WellFormed(c, bs) && op.Free?
    ensures Live(Apply(c, bs, op)) == Live(bs) - {op.rmem - c.headerSize}
  {
    var k := Find(c, bs, op.rmem);
    if k < |bs| {
      FreeLive(c, bs, k);
    } else {
      NotFound(c, bs, op.rmem);
    }
  }

  lemma {:induction false} NotFound(c: Config, bs: seq<Block>, rmem: int)
    ensures rmem - c.headerSize in Live(bs) <==> Find(c, bs, rmem) < |bs|
  {
    if bs != [] {
      NotFound(c, bs[1..], rmem);
    }
  }

  /** Freeing all live blocks, in any order, brings back the heap of `mem_init`. */
  lemma FreeingAllRestoresInitial(c: Config, bs: seq<Block>, ops: seq<Op>)
    requires ValidConfig(c) && WellFormed(c, bs)
    requires forall op :: op in ops ==> op.Free?
    requires forall o :: o in Live(bs) ==> Free(o + c.headerSize) in ops
    ensures ApplyAll(c, bs, ops) == Initial(c)
    ensures LowestFree(c, ApplyAll(c, bs, ops)) == 0
  {
    FreesShrinkLive(c, bs, ops);
    assert Live(ApplyAll(c, bs, ops)) == {};
    NothingLive(c, ApplyAll(c, bs, ops));
  }

  lemma NeighboursAreUsed(bs: seq<Block>, k: nat)
    requires Coalesced(bs) && k < |bs| && !bs[k].used
    ensures 0 < k ==> bs[k - 1].used
    ensures k + 1 < |bs| ==> bs[k + 1].used
  {
    CoalescedJoin(bs[..k], bs[k..]);
    assert bs == bs[..k] + bs[k..];
    CoalescedJoin(bs[..k + 1], bs[k + 1..]);
    assert bs == bs[..k + 1] + bs[k + 1..];
  }

  lemma FreeUndoesFlag(bs: seq<Block>, k: nat)
    requires Coalesced(bs) && k < |bs| && !bs[k].used
    ensures FreeAt(bs[k := bs[k].(used := true)], k) == bs
  {
    hide FreeAt, Coalesced;
    var r := bs[k := bs[k].(used := true)];
    NeighboursAreUsed(bs, k);
    FreeShape(r, k);
    assert r[..k] == bs[..k] && r[k + 1..] == bs[k + 1..];
    assert bs == bs[..k] + [bs[k]] + bs[k + 1..];
  }

  lemma FreeUndoesSplit(bs: seq<Block>, k: nat, rest: nat)
    requires Coalesced(bs) && k < |bs| && !bs[k].used
    ensures FreeAt(bs[..k] + [Block(bs[k].off, rest, true), Block(rest, bs[k].next, false)] + bs[k + 1..], k) == bs
  {
    hide FreeAt, Coalesced;
    var r := bs[..k] + [Block(bs[k].off, rest, true), Block(rest, bs[k].next, false)] + bs[k + 1..];
    NeighboursAreUsed(bs, k);
    FreeShape(r, k);
    assert r[..k] == bs[..k] && r[k + 2..] == bs[k + 1..];
    assert bs == bs[..k] + [bs[k]] + bs[k + 1..];
  }

  lemma FreeUndoesTake(c: Config, bs: seq<Block>, k: nat, size: nat)
    requires Coalesced(bs) && k < |bs| && Fits(c, bs[k], size)
    ensures FreeAt(Take(c, bs, k, size), k) == bs
  {
    hide FreeAt, Coalesced;
    FreeUndoesFlag(bs, k);
    FreeUndoesSplit(bs, k, bs[k].off + c.headerSize + size);
  }

  /** `mem_malloc` and then `mem_free` of the result gives the same block list back. */
  lemma MallocThenFree(c: Config, bs: seq<Block>, size: nat)
    requires ValidConfig(c) && WellFormed(c, bs)
    requires size % c.alignment == 0 && c.minData <= size
    requires FirstFit(c, bs, size) < |bs|
    ensures var k := FirstFit(c, bs, size);
            Apply(c, Allocate(c, bs, size), Free(bs[k].off + c.headerSize)) == bs
  {
    var k := FirstFit(c, bs, size);
    TakeKeeps(c, bs, k, size);
    FindsLive(c, Take(c, bs, k, size), k);
    FreeUndoesTake(c, bs, k, size);
  }

  lemma SplitLive(bs: seq<Block>, k: nat, drop: nat, b1: Block, b2: Block)
    requires k + drop <= |bs| && (drop == 1 || (drop == 2 && !bs[k + 1].used))
    requires b1.off == bs[k].off && b1.used == bs[k].used && !b2.used
    ensures Live(bs[..k] + [b1, b2] + bs[k + drop..]) == Live(bs)
  {
    hide Live;
    var post := bs[k + drop..];
    LiveOfParts(bs[..k], bs[k], bs[k + 1..]);
    assert bs == bs[..k] + [bs[k]] + bs[k + 1..];
    if drop == 2 {
      LiveJoin([bs[k + 1]], post);
      LiveOfOne(bs[k + 1]);
      assert bs[k + 1..] == [bs[k + 1]] + post;
    }
    LiveJoin([b2], post);
    LiveOfOne(b2);
    LiveOfParts(bs[..k], b1, [b2] + post);
    assert bs[..k] + [b1, b2] + post == bs[..k] + [b1] + ([b2] + post);
  }

  /** Trimming keeps the live set. */
  lemma TrimLive(c: Config, bs: seq<Block>, k: nat, size: nat)
    requires k < |bs| && bs[k].used
    ensures Live(TrimAt(c, bs, k, size)) == Live(bs)
  {
    hide Live;
    var b := bs[k];
    var rest := b.off + c.headerSize + size;
    if DataSize(c, b) <= size {
    } else if k + 1 < |bs| && !bs[k + 1].used {
      SplitLive(bs, k, 2, b.(next := rest), Block(rest, bs[k + 1].next, false));
    } else if size + c.headerSize + c.minData <= DataSize(c, b) {
      SplitLive(bs, k, 1, b.(next := rest), Block(rest, b.next, false));
    }
  }

  lemma {:induction false} ApplyAllJoin(c: Config, bs: seq<Block>, a: seq<Op>, b: seq<Op>)
    requires 0 < c.alignment
    ensures ApplyAll(c, bs, a + b) == ApplyAll(c, ApplyAll(c, bs, a), b)
  {
    if b == [] {
      assert a + b == a;
    } else {
      var b', op := b[..|b| - 1], b[|b| - 1];
      ApplyAllJoin(c, bs, a, b');
      assert (a + b)[..|a + b| - 1] == a + b';
    }
  }

  lemma OutsideIsNotLive(c: Config, bs: seq<Block>, rmem: int)
    requires 0 < c.minData && Tiles(c, bs, 0, c.memSize) && !(0 <= rmem < c.memSize)
    ensures Find(c, bs, rmem) == |bs|
  {
    var k := Find(c, bs, rmem);
    if k < |bs| {
      TilesPart(c, bs, k, 0, c.memSize);
      TilesPart(c, bs[k..][1..], 0, bs[k].next, c.memSize);
    }
  }

  // ---------- The lowest-free pointer across an operation ----------

  /** `lfree` is the lowest unused block, or the block at mine that was just given out and that
      has no unused block below it. */
  predicate LfreeOk(c: Config, bs: seq<Block>, lfree: nat, mine: int)
  {
    lfree == LowestFree(c, bs) || (lfree == mine && mine < LowestFree(c, bs))
  }

  /** The final value of `lfree` in `mem_free` of block k: the assignment in `mem_free` itself,
      then the two in `plug_holes`. */
  function LfreeAfterFree(bs: seq<Block>, k: nat, lfree: nat): (r: nat)
    requires k < |bs|
  {
    var mem := bs[k].off;
    var l0 := if mem < lfree then mem else lfree;
    var l1 := if k + 1 < |bs| && !bs[k + 1].used && l0 == bs[k + 1].off then mem else l0;
    if 0 < k && !bs[k - 1].used && l1 == mem then bs[k - 1].off else l1
  }

  lemma FreeKeepsLfree(c: Config, bs: seq<Block>, k: nat, lfree: nat, mine: int)
    requires 0 < c.headerSize && WellFormed(c, bs) && k < |bs| && bs[k].used
    requires bs[k].off != mine && LfreeOk(c, bs, lfree, mine)
    ensures LfreeOk(c, FreeAt(bs, k), LfreeAfterFree(bs, k, lfree), mine)
  {
    FreeLowest(c, bs, k);
    BelowLowest(c, bs, k);
    if k + 1 < |bs| {
      Ordered(c, bs, k, k + 1, 0, c.memSize);
      Around(c, bs, k, k + 1);
    }
    if 0 < k {
      LowestJoin(c, bs[..k - 1], [bs[k - 1]]);
      assert bs[..k] == bs[..k - 1] + [bs[k - 1]];
    }
  }

  /** What `mem_free` of block k keeps of the invariant. */
  lemma FreeStep(c: Config, bs: seq<Block>, k: nat, lfree: nat, mine: int)
    requires 0 < c.headerSize && WellFormed(c, bs) && k < |bs| && bs[k].used
    requires bs[k].off != mine && LfreeOk(c, bs, lfree, mine)
    requires 0 <= mine ==> mine in Live(bs)
    ensures WellFormed(c, FreeAt(bs, k))
    ensures UsedBytes(FreeAt(bs, k)) == UsedBytes(bs) - (bs[k].next - bs[k].off)
    ensures 0 <= mine ==> mine in Live(FreeAt(bs, k))
    ensures LfreeOk(c, FreeAt(bs, k), LfreeAfterFree(bs, k, lfree), mine)
  {
    FreeKeeps(c, bs, k);
    FreeUsedBytes(bs, k);
    FreeLive(c, bs, k);
    FreeKeepsLfree(c, bs, k, lfree, mine);
  }

  /** The final value of `lfree` in `mem_trim` of block k to a smaller size. */
  function LfreeAfterTrim(c: Config, bs: seq<Block>, k: nat, size: nat, lfree: nat): (r: nat)
    requires k < |bs|
  {
    var rest := bs[k].off + c.headerSize + size;
    if k + 1 < |bs| && !bs[k + 1].used then
      (if lfree == bs[k + 1].off then rest else lfree)
    else if size + c.headerSize + c.minData <= DataSize(c, bs[k]) then
      (if rest < lfree then rest else lfree)
    else lfree
  }

  lemma LiveIsOutside(c: Config, bs: seq<Block>, k: nat, mine: nat)
    requires 0 < c.headerSize && Tiles(c, bs, 0, c.memSize) && k < |bs|
    requires mine in Live(bs) && mine != bs[k].off
    ensures mine < bs[k].off || bs[k].next <= mine
  {
    NotFound(c, bs, mine + c.headerSize);
    var j := Find(c, bs, mine + c.headerSize);
    if j < k {
      Ordered(c, bs, j, k, 0, c.memSize);
      TilesPart(c, bs, j, 0, c.memSize);
    } else {
      Ordered(c, bs, k, j, 0, c.memSize);
    }
  }

  lemma TrimKeepsLfree(c: Config, bs: seq<Block>, k: nat, size: nat, lfree: nat, mine: int)
    requires 0 < c.headerSize && WellFormed(c, bs) && k < |bs| && bs[k].used
    requires size < DataSize(c, bs[k])
    requires bs[k].off != mine && (0 <= mine ==> mine in Live(bs)) && LfreeOk(c, bs, lfree, mine)
    ensures LfreeOk(c, TrimAt(c, bs, k, size), LfreeAfterTrim(c, bs, k, size, lfree), mine)
  {
    TrimLowest(c, bs, k, size);
    if 0 <= mine {
      LiveIsOutside(c, bs, k, mine);
    }
    if k + 1 < |bs| {
      BelowLowest(c, bs, k + 1);
      Ordered(c, bs, k, k + 1, 0, c.memSize);
    }
  }

  /** What `mem_trim` of block k to a smaller size keeps of the invariant. */
  lemma TrimStep(c: Config, bs: seq<Block>, k: nat, size: nat, lfree: nat, mine: int)
    requires ValidConfig(c) && WellFormed(c, bs) && k < |bs| && bs[k].used
    requires size % c.alignment == 0 && c.minData <= size < DataSize(c, bs[k])
    requires bs[k].off != mine && (0 <= mine ==> mine in Live(bs)) && LfreeOk(c, bs, lfree, mine)
    ensures WellFormed(c, TrimAt(c, bs, k, size))
    ensures 0 <= mine ==> mine in Live(TrimAt(c, bs, k, size))
    ensures LfreeOk(c, TrimAt(c, bs, k, size), LfreeAfterTrim(c, bs, k, size, lfree), mine)
    ensures UsedBytes(TrimAt(c, bs, k, size)) == UsedBytes(bs)
            - if TrimFrees(c, bs, k, size) then DataSize(c, bs[k]) - size else 0
  {
    TrimKeeps(c, bs, k, size);
    TrimLive(c, bs, k, size);
    TrimKeepsLfree(c, bs, k, size, lfree, mine);
    TrimUsedBytes(c, bs, k, size);
  }

  // ---------- Giving out a block ----------

  /** After giving out block k, `lfree` is still the lowest unused block, or it is the block
      given out and every unused block lies above it. */
  lemma TakeKeepsLfree(c: Config, bs: seq<Block>, k: nat, size: nat)
    requires ValidConfig(c) && WellFormed(c, bs) && k < |bs| && Fits(c, bs[k], size)
    ensures LfreeOk(c, Take(c, bs, k, size), LowestFree(c, bs), bs[k].off)
  {
    var b := bs[k];
    var split := size + c.headerSize + c.minData <= DataSize(c, b);
    var rest := b.off + c.headerSize + size;
    var mid := if split then [Block(b.off, rest, true), Block(rest, b.next, false)] else [b.(used := true)];
    assert Take(c, bs, k, size) == bs[..k] + mid + bs[k + 1..];
    LowestOfParts(c, bs[..k], mid, bs[k + 1..]);
    TakenIsAbove(c, b.off, mid);
    LowestAround(c, bs, k, k + 1);
    assert bs[k..k + 1] == [b];
    BelowLowest(c, bs, k);
    TilesPart(c, bs, k, 0, c.memSize);
    LowestBounds(c, bs[k..][1..], b.next, c.memSize);
    assert bs[k..][1..] == bs[k + 1..];
    LowestBounds(c, bs[..k], 0, b.off);
  }

  lemma TakenIsAbove(c: Config, off: nat, mid: seq<Block>)
    requires mid != [] && mid[0].used
    requires |mid| == 1 || (|mid| == 2 && !mid[1].used && off < mid[1].off)
    ensures !AllUsed(mid) ==> off < LowestFree(c, mid)
    ensures AllUsed(mid) <==> |mid| == 1
  {
    if |mid| == 1 {
      assert AllUsed(mid[1..]);
    } else {
      assert !AllUsed(mid[1..]);
    }
  }

  lemma TakeLive(c: Config, bs: seq<Block>, k: nat, size: nat)
    requires k < |bs| && Fits(c, bs[k], size)
    ensures bs[k].off in Live(Take(c, bs, k, size))
  {
    var b, pre, post := bs[k], bs[..k], bs[k + 1..];
    if size + c.headerSize + c.minData <= DataSize(c, b) {
      var rest := b.off + c.headerSize + size;
      var b1, b2 := Block(b.off, rest, true), Block(rest, b.next, false);
      LiveOfParts(pre, b1, [b2] + post);
      assert pre + [b1, b2] + post == pre + [b1] + ([b2] + post);
    } else {
      LiveOfParts(pre, b.(used := true), post);
      assert bs[k := b.(used := true)] == pre + [b.(used := true)] + post;
    }
  }

  /** The block given out has the offset of block k and room for the rounded size. It has room
      for the request itself exactly when rounding the request did not wrap around. */
  lemma GrantCoversRequest(c: Config, bs: seq<Block>, k: nat, request: MemSize)
    requires ValidConfig(c) && WellFormed(c, bs) && k < |bs|
    requires Fits(c, bs[k], RoundSize(c, request))
    ensures var b := Take(c, bs, k, RoundSize(c, request))[k];
            && b.used && b.off == bs[k].off
            && RoundSize(c, request) <= DataSize(c, b)
            && (request <= DataSize(c, b) <==> request + c.alignment <= SIZE_MODULUS)
  {
    RoundingCovers(c, request);
    Multiples.Gap(c.memSize, SIZE_MODULUS, c.alignment);
    Around(c, bs, k, k + 1);
    TilesPart(c, bs[k + 1..], 0, bs[k].next, c.memSize);
  }

  /** A request of 65535 bytes to a heap of 1600 is rounded to 12, and is given a block of 12 bytes. */
  lemma WrappedRequestIsGranted()
    ensures var c := Config(1600, 8, 12, 4);
            && ValidConfig(c) && RoundSize(c, 65535) == 12
            && Allocate(c, Initial(c), 12) == [Block(0, 20, true), Block(20, 1600, false)]
            && DataSize(c, Block(0, 20, true)) == 12
  {
    var c := Config(1600, 8, 12, 4);
    var bs := Initial(c);
    assert FirstFit(c, bs, 12) == 0;
    assert bs[..0] == [] && bs[1..] == [];
  }

  /** What giving out block k keeps of the invariant. */
  lemma TakeStep(c: Config, bs: seq<Block>, k: nat, size: nat)
    requires ValidConfig(c) && WellFormed(c, bs) && k < |bs| && Fits(c, bs[k], size)
    requires size % c.alignment == 0 && c.minData <= size
    ensures WellFormed(c, Take(c, bs, k, size))
    ensures bs[k].off in Live(Take(c, bs, k, size))
    ensures LfreeOk(c, Take(c, bs, k, size), LowestFree(c, bs), bs[k].off)
    ensures UsedBytes(Take(c, bs, k, size)) == UsedBytes(bs)
            + if size + c.headerSize + c.minData <= DataSize(c, bs[k]) then size + c.headerSize
              else bs[k].next - bs[k].off
  {
    TakeKeeps(c, bs, k, size);
    TakeUsedBytes(c, bs, k, size);
    TakeLive(c, bs, k, size);
    TakeKeepsLfree(c, bs, k, size);
  }

  // ---------- Rows of windows ----------

  lemma FlattenOne(ops: seq<Op>)
    ensures Flatten([ops]) == ops
  {
    assert [ops][..0] == [];
    assert Flatten([]) == [];
  }

  lemma {:induction false} FlattenJoin(a: seq<seq<Op>>, b: seq<seq<Op>>)
    ensures Flatten(a + b) == Flatten(a) + Flatten(b)
  {
    if b == [] {
      assert a + b == a;
    } else {
      FlattenJoin(a, b[..|b| - 1]);
      assert (a + b)[..|a + b| - 1] == a + b[..|b| - 1];
    }
  }

  lemma {:induction false} OthersJoin(c: Config, a: seq<Op>, b: seq<Op>, mine: int)
    ensures Others(c, a + b, mine) == Others(c, a, mine) + Others(c, b, mine)
  {
    if b == [] {
      assert a + b == a;
    } else {
      OthersJoin(c, a, b[..|b| - 1], mine);
      assert (a + b)[..|a + b| - 1] == a + b[..|b| - 1];
    }
  }

  lemma WindowsJoin(c: Config, bs: seq<Block>, env: seq<seq<Op>>, i: nat, j: nat, l: nat, mine: int)
    requires 0 < c.alignment && i <= j <= l <= |env|
    ensures AfterWindows(c, AfterWindows(c, bs, env, i, j, mine), env, j, l, mine)
            == AfterWindows(c, bs, env, i, l, mine)
  {
    assert env[i..l] == env[i..j] + env[j..l];
    FlattenJoin(env[i..j], env[j..l]);
    OthersJoin(c, Flatten(env[i..j]), Flatten(env[j..l]), mine);
    ApplyAllJoin(c, bs, Others(c, Flatten(env[i..j]), mine), Others(c, Flatten(env[j..l]), mine));
  }

  lemma NoWindows(c: Config, bs: seq<Block>, env: seq<seq<Op>>, i: nat, mine: int)
    requires 0 < c.alignment && i <= |env|
    ensures AfterWindows(c, bs, env, i, i, mine) == bs
  {
    assert env[i..i] == [];
  }

  lemma NoOps(c: Config, bs: seq<Block>, mine: int)
    requires 0 < c.alignment
    ensures ApplyAll(c, bs, Others(c, [], mine)) == bs
  {
  }

  lemma OneWindow(c: Config, bs: seq<Block>, env: seq<seq<Op>>, i: nat, mine: int)
    requires 0 < c.alignment && i < |env|
    ensures AfterWindows(c, bs, env, i, i + 1, mine) == ApplyAll(c, bs, Others(c, env[i], mine))
  {
    assert env[i..i + 1] == [env[i]];
    FlattenOne(env[i]);
  }

  lemma OneInterrupt(c: Config, bs: seq<Block>, ops: seq<Op>, n: nat, mine: int)
    requires 0 < c.alignment && n < |ops|
    ensures var r := ApplyAll(c, bs, Others(c, ops[..n], mine));
            ApplyAll(c, bs, Others(c, ops[..n + 1], mine))
            == if ops[n].rmem == mine + c.headerSize then r else Apply(c, r, ops[n])
  {
    assert ops[..n + 1][..n] == ops[..n];
    var others := Others(c, ops[..n], mine);
    assert (others + [ops[n]])[..|others|] == others;
  }
}

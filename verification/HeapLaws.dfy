/** What the heap operations keep, and how they relate to each other. */
module HeapLaws {
  import opened HeapBlocks
  import Multiples

  // ---------- Rounding ----------

  lemma RoundUp(size: nat, n: nat)
    requires 0 < n
    ensures size <= (size + n - 1) / n * n < size + n
  {
    var x := size + n - 1;
    assert x == n * (x / n) + x % n;
  }

  /** A rounded size is a multiple of the alignment and at least the minimum. */
  lemma RoundedIsAligned(c: Config, size: nat)
    requires ValidConfig(c)
    ensures RoundSize(c, size) % c.alignment == 0
    ensures c.minData <= RoundSize(c, size)
  {
    var aligned := (size + c.alignment - 1) / c.alignment * c.alignment;
    Multiples.Product((size + c.alignment - 1) / c.alignment, c.alignment);
    Multiples.Reduced(aligned, SIZE_MODULUS, c.alignment);
  }

  /** Rounding covers the request exactly when adding the alignment does not pass the modulus
      of `mem_size_t`; a larger request wraps around to the minimum size. */
  lemma RoundingCovers(c: Config, size: nat)
    requires ValidConfig(c) && size < SIZE_MODULUS
    ensures size <= RoundSize(c, size) <==> size + c.alignment <= SIZE_MODULUS
    ensures SIZE_MODULUS < size + c.alignment ==> RoundSize(c, size) == c.minData
  {
    var aligned := (size + c.alignment - 1) / c.alignment * c.alignment;
    RoundUp(size, c.alignment);
    Multiples.Gap(c.minData, SIZE_MODULUS, c.alignment);
    if SIZE_MODULUS < size + c.alignment {
      Multiples.Product((size + c.alignment - 1) / c.alignment, c.alignment);
      WrapsToZero(aligned, size, c.alignment);
    }
  }

  lemma WrapsToZero(aligned: nat, size: nat, n: nat)
    requires 0 < n && SIZE_MODULUS % n == 0 && aligned % n == 0
    requires size <= aligned < size + n && size < SIZE_MODULUS < size + n
    ensures aligned == SIZE_MODULUS
  {
    if aligned < SIZE_MODULUS {
      Multiples.Gap(aligned, SIZE_MODULUS, n);
    } else if SIZE_MODULUS < aligned {
      Multiples.Gap(SIZE_MODULUS, aligned, n);
    }
  }

  // ---------- Well-formedness ----------

  lemma InitialIsWellFormed(c: Config)
    requires ValidConfig(c)
    ensures WellFormed(c, Initial(c))
    ensures LowestFree(c, Initial(c)) == 0
  {
  }

  // Tiling, coalescing and alignment of a concatenation and of its parts.

  lemma {:induction false} TilesJoin(c: Config, a: seq<Block>, b: seq<Block>, lo: int, mid: int, hi: int)
    requires Tiles(c, a, lo, mid) && Tiles(c, b, mid, hi)
    ensures Tiles(c, a + b, lo, hi)
  {
    if a == [] {
      assert a + b == b;
    } else {
      TilesJoin(c, a[1..], b, a[0].next, mid, hi);
      assert (a + b)[1..] == a[1..] + b;
    }
  }

  lemma {:induction false} TilesPart(c: Config, bs: seq<Block>, k: nat, lo: int, hi: int)
    requires Tiles(c, bs, lo, hi) && k <= |bs|
    ensures var mid := if k < |bs| then bs[k].off else hi;
            lo <= mid <= hi && Tiles(c, bs[..k], lo, mid) && Tiles(c, bs[k..], mid, hi)
  {
    if k == 0 {
      assert bs[0..] == bs;
      if bs != [] {
        TilesPart(c, bs[1..], 0, bs[0].next, hi);
      }
    } else {
      TilesPart(c, bs[1..], k - 1, bs[0].next, hi);
      assert bs[1..][..k - 1] == bs[..k][1..];
      assert bs[1..][k - 1..] == bs[k..];
    }
  }

  lemma {:induction false} CoalescedJoin(a: seq<Block>, b: seq<Block>)
    ensures Coalesced(a + b)
            <==> Coalesced(a) && Coalesced(b) && (a == [] || b == [] || a[|a| - 1].used || b[0].used)
  {
    if a == [] {
      assert a + b == b;
    } else {
      CoalescedJoin(a[1..], b);
      assert (a + b)[1..] == a[1..] + b;
    }
  }

  lemma {:induction false} AlignedJoin(n: nat, a: seq<Block>, b: seq<Block>)
    requires 0 < n
    ensures AlignedTo(n, a + b) <==> AlignedTo(n, a) && AlignedTo(n, b)
  {
    if a == [] {
      assert a + b == b;
    } else {
      AlignedJoin(n, a[1..], b);
      assert (a + b)[1..] == a[1..] + b;
    }
  }

  /** A well formed list taken apart around the blocks from k up to m. */
  lemma Around(c: Config, bs: seq<Block>, k: nat, m: nat)
    requires WellFormed(c, bs) && k < m <= |bs|
    ensures Tiles(c, bs[..k], 0, bs[k].off)
    ensures Tiles(c, bs[m..], bs[m - 1].next, c.memSize)
    ensures Coalesced(bs[..k]) && Coalesced(bs[m..])
    ensures AlignedTo(c.alignment, bs[..k]) && AlignedTo(c.alignment, bs[m..])
    ensures Roomy(c, bs[k]) && bs[k].off % c.alignment == 0
    ensures bs[k].next <= bs[m - 1].next
    ensures 0 < k ==> bs[k - 1].used || bs[k].used
    ensures m < |bs| ==> bs[m - 1].used || bs[m].used
  {
    assert bs == bs[..k] + bs[k..];
    assert bs == bs[..m] + bs[m..];
    TilesPart(c, bs, k, 0, c.memSize);
    TilesPart(c, bs, m, 0, c.memSize);
    TilesPart(c, bs, m - 1, 0, c.memSize);
    assert bs[m - 1..][1..] == bs[m..];
    CoalescedJoin(bs[..k], bs[k..]);
    CoalescedJoin(bs[..m], bs[m..]);
    AlignedJoin(c.alignment, bs[..k], bs[k..]);
    AlignedJoin(c.alignment, bs[..m], bs[m..]);
    NextIsOrdered(c, bs, k, m, 0, c.memSize);
  }

  lemma {:induction false} NextIsOrdered(c: Config, bs: seq<Block>, k: nat, m: nat, lo: int, hi: int)
    requires Tiles(c, bs, lo, hi) && k < m <= |bs|
    ensures bs[k].next <= bs[m - 1].next
  {
    if k + 1 < m {
      TilesPart(c, bs, k, lo, hi);
      TilesPart(c, bs, m - 1, lo, hi);
      TilesPart(c, bs[k..][1..], m - 1 - (k + 1), bs[k].next, hi);
    }
  }

  /** The parts of a list with a new middle make a well formed list. */
  lemma Assembled(c: Config, pre: seq<Block>, mid: seq<Block>, post: seq<Block>, lo: int, hi: int)
    requires 0 < c.alignment && mid != []
    requires Tiles(c, pre, 0, lo) && Tiles(c, mid, lo, hi) && Tiles(c, post, hi, c.memSize)
    requires Coalesced(pre) && Coalesced(mid) && Coalesced(post)
    requires AlignedTo(c.alignment, pre) && AlignedTo(c.alignment, mid) && AlignedTo(c.alignment, post)
    requires pre == [] || pre[|pre| - 1].used || mid[0].used
    requires post == [] || mid[|mid| - 1].used || post[0].used
    ensures WellFormed(c, pre + mid + post)
  {
    assert Tiles(c, pre + mid + post, 0, c.memSize) by {
      TilesJoin(c, pre, mid, 0, lo, hi);
      TilesJoin(c, pre + mid, post, 0, hi, c.memSize);
    }
    assert AlignedTo(c.alignment, pre + mid + post) by {
      AlignedJoin(c.alignment, pre, mid);
      AlignedJoin(c.alignment, pre + mid, post);
    }
    var front := pre + mid;
    assert front[|front| - 1] == mid[|mid| - 1];
    CoalescedJoin(pre, mid);
    CoalescedJoin(front, post);
  }

  /** The offset behind a block's header and a rounded amount of data is aligned. */
  lemma RestIsAligned(c: Config, off: nat, size: nat)
    requires ValidConfig(c)
    requires off % c.alignment == 0 && size % c.alignment == 0
    ensures (off + c.headerSize + size) % c.alignment == 0
  {
    Multiples.Sum(off, c.headerSize, c.alignment);
    Multiples.Sum(off + c.headerSize, size, c.alignment);
  }

  /** A pair of blocks that covers a range. */
  lemma Pair(c: Config, b1: Block, b2: Block)
    requires 0 < c.alignment
    requires Roomy(c, b1) && Roomy(c, b2) && b1.next == b2.off
    requires b1.off % c.alignment == 0 && b2.off % c.alignment == 0
    ensures Tiles(c, [b1, b2], b1.off, b2.next)
    ensures AlignedTo(c.alignment, [b1, b2])
    ensures Coalesced([b1, b2]) <==> b1.used || b2.used
  {
    assert [b1, b2][1..] == [b2];
    assert [b2][1..] == [];
    assert Tiles(c, [b2], b2.off, b2.next);
    assert AlignedTo(c.alignment, [b2]);
  }

  lemma Single(c: Config, b: Block)
    requires 0 < c.alignment
    requires Roomy(c, b) && b.off % c.alignment == 0
    ensures Tiles(c, [b], b.off, b.next)
    ensures AlignedTo(c.alignment, [b])
    ensures Coalesced([b])
  {
    assert [b][1..] == [];
  }

  lemma TakeKeeps(c: Config, bs: seq<Block>, k: nat, size: nat)
    requires ValidConfig(c) && WellFormed(c, bs)
    requires k < |bs| && Fits(c, bs[k], size)
    requires size % c.alignment == 0 && c.minData <= size
    ensures WellFormed(c, Take(c, bs, k, size))
  {
    hide Tiles, Coalesced, AlignedTo;
    Around(c, bs, k, k + 1);
    var b := bs[k];
    if size + c.headerSize + c.minData <= DataSize(c, b) {
      var rest := b.off + c.headerSize + size;
      var b1, b2 := Block(b.off, rest, true), Block(rest, b.next, false);
      RestIsAligned(c, b.off, size);
      Pair(c, b1, b2);
      Assembled(c, bs[..k], [b1, b2], bs[k + 1..], b.off, b.next);
    } else {
      Single(c, b.(used := true));
      Assembled(c, bs[..k], [b.(used := true)], bs[k + 1..], b.off, b.next);
      assert bs[k := b.(used := true)] == bs[..k] + [b.(used := true)] + bs[k + 1..];
    }
  }

  lemma AllocateKeeps(c: Config, bs: seq<Block>, size: nat)
    requires ValidConfig(c) && WellFormed(c, bs)
    requires size % c.alignment == 0 && c.minData <= size
    ensures WellFormed(c, Allocate(c, bs, size))
  {
    var k := FirstFit(c, bs, size);
    if k < |bs| {
      TakeKeeps(c, bs, k, size);
    }
  }

  lemma FlagIsTiled(c: Config, bs: seq<Block>, k: nat, used: bool)
    requires Tiles(c, bs, 0, c.memSize) && k < |bs|
    ensures Tiles(c, bs[k := bs[k].(used := used)], 0, c.memSize)
  {
    var b := bs[k].(used := used);
    TilesPart(c, bs, k, 0, c.memSize);
    assert bs[k..][1..] == bs[k + 1..];
    assert [b][1..] == [];
    TilesJoin(c, bs[..k], [b], 0, b.off, b.next);
    TilesJoin(c, bs[..k] + [b], bs[k + 1..], 0, b.next, c.memSize);
    assert bs[k := b] == bs[..k] + [b] + bs[k + 1..];
  }

  lemma MergeIsTiled(c: Config, bs: seq<Block>, k: nat)
    requires Tiles(c, bs, 0, c.memSize) && k + 1 < |bs|
    ensures Tiles(c, Merge(bs, k), 0, c.memSize)
  {
    var b := bs[k].(next := bs[k + 1].next);
    TilesPart(c, bs, k, 0, c.memSize);
    TilesPart(c, bs, k + 1, 0, c.memSize);
    NextIsOrdered(c, bs, k, k + 2, 0, c.memSize);
    assert bs[k + 1..][1..] == bs[k + 2..];
    assert [b][1..] == [];
    TilesJoin(c, bs[..k], [b], 0, b.off, b.next);
    TilesJoin(c, bs[..k] + [b], bs[k + 2..], 0, b.next, c.memSize);
  }

  /** The lowest and the highest block that freeing block k combines. */
  function FreeLow(bs: seq<Block>, k: nat): (lo: nat)
    requires k < |bs|
    ensures lo <= k
  {
    if 0 < k && !bs[k - 1].used then k - 1 else k
  }

  function FreeHigh(bs: seq<Block>, k: nat): (hi: nat)
    requires k < |bs|
    ensures k <= hi < |bs|
  {
    if k + 1 < |bs| && !bs[k + 1].used then k + 1 else k
  }

  /** Both halves of `plug_holes` together: the freed block takes in its unused neighbours and
      all other blocks stay. */
  lemma FreeShape(bs: seq<Block>, k: nat)
    requires k < |bs|
    ensures var lo, hi := FreeLow(bs, k), FreeHigh(bs, k);
            FreeAt(bs, k) == bs[..lo] + [Block(bs[lo].off, bs[hi].next, false)] + bs[hi + 1..]
  {
    var b1 := bs[k := bs[k].(used := false)];
    var b2 := PlugForward(b1, k);
    var lo, hi := FreeLow(bs, k), FreeHigh(bs, k);
    assert b2 == bs[..k] + [Block(bs[k].off, bs[hi].next, false)] + bs[hi + 1..];
    if lo < k {
      assert b2[..k - 1] == bs[..lo];
      assert b2[k + 1..] == bs[hi + 1..];
    }
  }

  lemma FreeKeeps(c: Config, bs: seq<Block>, k: nat)
    requires WellFormed(c, bs)
    requires k < |bs| && bs[k].used
    ensures WellFormed(c, FreeAt(bs, k))
  {
    hide Tiles, Coalesced, AlignedTo;
    var lo, hi := FreeLow(bs, k), FreeHigh(bs, k);
    Around(c, bs, lo, hi + 1);
    var b := Block(bs[lo].off, bs[hi].next, false);
    Single(c, b);
    Assembled(c, bs[..lo], [b], bs[hi + 1..], b.off, b.next);
    FreeShape(bs, k);
  }

  lemma TrimKeeps(c: Config, bs: seq<Block>, k: nat, size: nat)
    requires ValidConfig(c) && WellFormed(c, bs)
    requires k < |bs| && bs[k].used
    requires size % c.alignment == 0 && c.minData <= size
    ensures WellFormed(c, TrimAt(c, bs, k, size))
  {
    hide Tiles, Coalesced, AlignedTo;
    var b := bs[k];
    var rest := b.off + c.headerSize + size;
    Around(c, bs, k, k + 1);
    RestIsAligned(c, b.off, size);
    if DataSize(c, b) <= size {
    } else if k + 1 < |bs| && !bs[k + 1].used {
      var b2 := Block(rest, bs[k + 1].next, false);
      Around(c, bs, k, k + 2);
      Around(c, bs, k + 1, k + 2);
      TilesPart(c, bs[k + 1..], 1, b.next, c.memSize);
      Pair(c, b.(next := rest), b2);
      Assembled(c, bs[..k], [b.(next := rest), b2], bs[k + 2..], b.off, b2.next);
    } else if size + c.headerSize + c.minData <= DataSize(c, b) {
      var b2 := Block(rest, b.next, false);
      Pair(c, b.(next := rest), b2);
      Assembled(c, bs[..k], [b.(next := rest), b2], bs[k + 1..], b.off, b.next);
    }
  }

  lemma ApplyKeeps(c: Config, bs: seq<Block>, op: Op)
    requires ValidConfig(c) && WellFormed(c, bs)
    ensures WellFormed(c, Apply(c, bs, op))
  {
    var k := Find(c, bs, op.rmem);
    if k < |bs| {
      if op.Free? {
        FreeKeeps(c, bs, k);
      } else {
        RoundedIsAligned(c, op.size);
        TrimKeeps(c, bs, k, RoundSize(c, op.size));
      }
    }
  }
}

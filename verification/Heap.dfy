/** The lwIP heap allocator: headers inside one byte arena, changed in place. */
module Heap {
  import opened Common
  import opened HeapBlocks
  import opened HeapLaws
  import opened HeapMeasures
  import opened HeapArena

  /** A pointer as the allocator sees it: an offset from the start of the arena. */
  datatype Pointer = Null | At(off: int)

  /** The result of `mem_malloc` as if it had happened at one instant, between the windows that
      ran before and those that ran after: first fit in the block list of that instant. */
  ghost predicate Outcome(c: Config, before: seq<Block>, size: nat, env: seq<seq<Op>>, rmem: Pointer,
                          taken: nat, ran: nat, after: seq<Block>)
    requires 0 < c.alignment && taken <= ran <= |env|
  {
    var bs := AfterWindows(c, before, env, 0, taken, -1);
    var k := FirstFit(c, bs, size);
    if k == |bs| then
      rmem == Null && after == bs
    else
      && rmem == At(bs[k].off + c.headerSize)
      && after == AfterWindows(c, Take(c, bs, k, size), env, taken, ran, bs[k].off)
      && bs[k].off in Live(after)
  }

  class Heap {
    const c: Config
    const ram: array<byte>
    var lfree: nat
    /** `lwip_stats.mem.used`, `.err` and `.illegal` */
    var used: int
    var err: nat
    var illegal: nat
    /** set by `mem_free` and `mem_trim`, cleared by `mem_malloc` before it opens a window */
    var memFreeCount: bool

    ghost var blocks: seq<Block>

    /** The headers in the arena describe the block list, which tiles it. */
    ghost predicate Standing()
      reads this, ram
    {
      && ValidConfig(c)
      && ram.Length == c.memSize + c.headerSize
      && Tiles(c, blocks, 0, c.memSize)
      && Laid(ram[..], blocks, 0)
      && UsedOf(ram[..], c.memSize)
    }

    /** The invariant while `mem_malloc` has given out the block at offset mine but not yet
        moved `lfree` off it; a negative mine means that there is no such block. */
    ghost predicate ValidFor(mine: int)
      reads this, ram
    {
      && Standing()
      && WellFormed(c, blocks)
      && used == UsedBytes(blocks)
      && (0 <= mine ==> mine in Live(blocks))
      && LfreeOk(c, blocks, lfree, mine)
    }

    /** The invariant between calls: also, `lfree` is the lowest unused block or `ram_end`. */
    ghost predicate Valid()
      reads this, ram
    {
      ValidFor(-1)
    }

    // ---------- Header access ----------

    function Next(p: nat): (v: nat)
      requires p + 5 <= ram.Length
      reads ram
    {
      ram[p] as int + 256 * (ram[p + 1] as int)
    }

    function Prev(p: nat): (v: nat)
      requires p + 5 <= ram.Length
      reads ram
    {
      ram[p + 2] as int + 256 * (ram[p + 3] as int)
    }

    predicate Used(p: nat)
      requires p + 5 <= ram.Length
      reads ram
    {
      ram[p + 4] != 0
    }

    method SetNext(p: nat, v: nat)
      requires p + 5 <= ram.Length && v < SIZE_MODULUS
      modifies ram
      ensures ram[..] == PutWord(old(ram[..]), p, v)
    {
      ram[p], ram[p + 1] := v % 256, v / 256;
    }

    method SetPrev(p: nat, v: nat)
      requires p + 5 <= ram.Length && v < SIZE_MODULUS
      modifies ram
      ensures ram[..] == PutWord(old(ram[..]), p + 2, v)
    {
      ram[p + 2], ram[p + 3] := v % 256, v / 256;
    }

    method SetUsed(p: nat, flag: bool)
      requires p + 5 <= ram.Length
      modifies ram
      ensures ram[..] == old(ram[..])[p + 4 := if flag then 1 else 0]
    {
      ram[p + 4] := if flag then 1 else 0;
    }

    /** What the header of block k says. */
    lemma Reads(k: nat)
      requires Standing() && k < |blocks|
      ensures blocks[k].off + c.headerSize + c.minData <= blocks[k].next <= c.memSize
      ensures Next(blocks[k].off) == blocks[k].next
      ensures Used(blocks[k].off) == blocks[k].used
      ensures Prev(blocks[k].off) == if k == 0 then 0 else blocks[k - 1].off
      ensures blocks[k].next == if k + 1 < |blocks| then blocks[k + 1].off else c.memSize
    {
      LaidAround(c, ram[..], blocks, k, k + 1);
    }

    // ---------- mem_init ----------

    constructor (c: Config)
      requires ValidConfig(c)
      ensures this.c == c && Valid() && fresh(ram)
      ensures blocks == Initial(c) && lfree == 0 && used == 0
    {
      this.c := c;
      ram := new byte[c.memSize + c.headerSize](_ => 0);
      lfree := 0;
      used, err, illegal := 0, 0, 0;
      memFreeCount := false;
      blocks := Initial(c);
      new;
      SetNext(0, c.memSize);
      SetPrev(0, 0);
      SetUsed(0, false);
      SetUsed(c.memSize, true);
      SetNext(c.memSize, c.memSize);
      SetPrev(c.memSize, c.memSize);
      InitialIsWellFormed(c);
      assert blocks[1..] == [];
      assert Stands(ram[..], blocks[0], 0);
    }

    // ---------- mem_free ----------

    /** One half of `plug_holes`: combine the unused block at lower with its successor. */
    method Combine(lower: nat, upper: nat, ghost k: nat)
      requires Standing()
      requires k + 1 < |blocks| && blocks[k].off == lower && blocks[k + 1].off == upper
      requires !blocks[k].used
      modifies ram, this`blocks
      ensures Standing() && blocks == Merge(old(blocks), k)
      ensures DataKept(c, old(ram[..]), ram[..], blocks, -1)
    {
      Reads(k);
      Reads(k + 1);
      var next := Next(upper);
      SetNext(lower, next);
      SetPrev(next, lower);
      MergeLaid(c, old(ram[..]), ram[..], blocks, k);
      MergeIsTiled(c, blocks, k);
      blocks := Merge(blocks, k);
    }

    method PlugHoleForward(mem: nat, ghost k: nat)
      requires Standing()
      requires k < |blocks| && blocks[k].off == mem && !blocks[k].used
      modifies ram, this`blocks, this`lfree
      ensures Standing() && blocks == PlugForward(old(blocks), k)
      ensures DataKept(c, old(ram[..]), ram[..], blocks, -1)
      ensures lfree == if k + 1 < |old(blocks)| && !old(blocks)[k + 1].used
                          && old(lfree) == old(blocks)[k + 1].off
                       then mem else old(lfree)
    {
      Reads(k);
      var nmem := Next(mem);
      if k + 1 < |blocks| {
        Reads(k + 1);
      }
      if mem != nmem && !Used(nmem) && nmem != c.memSize {
        if lfree == nmem {
          lfree := mem;
        }
        Combine(mem, nmem, k);
      } else {
        DataUnchanged(c, ram[..], blocks, -1);
      }
    }

    method PlugHoleBackward(mem: nat, ghost k: nat)
      requires Standing()
      requires k < |blocks| && blocks[k].off == mem && !blocks[k].used
      modifies ram, this`blocks, this`lfree
      ensures Standing() && blocks == PlugBackward(old(blocks), k)
      ensures DataKept(c, old(ram[..]), ram[..], blocks, -1)
      ensures lfree == if 0 < k && !old(blocks)[k - 1].used && old(lfree) == mem
                       then old(blocks)[k - 1].off else old(lfree)
    {
      Reads(k);
      var pmem := Prev(mem);
      if 0 < k {
        Reads(k - 1);
      }
      if pmem != mem && !Used(pmem) {
        if lfree == mem {
          lfree := pmem;
        }
        Combine(pmem, mem, k - 1);
      } else {
        DataUnchanged(c, ram[..], blocks, -1);
      }
    }

    method PlugHoles(mem: nat, ghost k: nat)
      requires Standing()
      requires k < |blocks| && blocks[k].off == mem && !blocks[k].used
      modifies ram, this`blocks, this`lfree
      ensures Standing() && blocks == PlugBackward(PlugForward(old(blocks), k), k)
      ensures DataKept(c, old(ram[..]), ram[..], blocks, -1)
      ensures var low := if k + 1 < |old(blocks)| && !old(blocks)[k + 1].used
                            && old(lfree) == old(blocks)[k + 1].off
                         then mem else old(lfree);
              lfree == if 0 < k && !old(blocks)[k - 1].used && low == mem
                       then old(blocks)[k - 1].off else low
    {
      PlugHoleForward(mem, k);
      ghost var m1, bs1 := ram[..], blocks;
      PlugHoleBackward(mem, k);
      if 0 < k && !bs1[k - 1].used {
        MergeKeepsData(c, old(ram[..]), m1, bs1, k - 1, -1);
      }
      DataKeptThen(c, old(ram[..]), m1, ram[..], blocks, -1);
    }

    /** `mem->used = 0` */
    method MarkUnused(mem: nat, ghost k: nat)
      requires Standing()
      requires k < |blocks| && blocks[k].off == mem
      modifies ram, this`blocks
      ensures Standing() && blocks == old(blocks)[k := old(blocks)[k].(used := false)]
      ensures mem + 5 <= ram.Length && Next(mem) == blocks[k].next
      ensures DataKept(c, old(ram[..]), ram[..], old(blocks), -1)
    {
      Reads(k);
      SetUsed(mem, false);
      FlagLaid(c, old(ram[..]), ram[..], blocks, k, false);
      FlagIsTiled(c, blocks, k, false);
      blocks := blocks[k := blocks[k].(used := false)];
    }

    /** Freeing the live block k; `mem_free` between its protection calls. */
    method Release(mem: nat, ghost k: nat, ghost mine: int)
      requires ValidFor(mine)
      requires k < |blocks| && blocks[k].used && blocks[k].off == mem && mem != mine
      modifies ram, this`blocks, this`lfree, this`used
      ensures ValidFor(mine) && blocks == FreeAt(old(blocks), k)
      ensures DataKept(c, old(ram[..]), ram[..], blocks, -1)
    {
      hide Tiles, Laid, DataKept, UsedBytes, Live, LowestFree, Coalesced, AlignedTo;
      ghost var bs, m, low := blocks, ram[..], lfree;
      MarkUnused(mem, k);
      ghost var m1 := ram[..];
      if mem < lfree {
        lfree := mem;
      }
      used := used - (Next(mem) - mem);
      PlugHoles(mem, k);
      assert DataKept(c, m, ram[..], blocks, -1) by {
        FreeKeepsData(c, m, m1, bs, k, -1);
        DataKeptThen(c, m, m1, ram[..], blocks, -1);
      }
      FreeStep(c, bs, k, low, mine);
    }

    method MemFree(rmem: Pointer, ghost mine: int)
      requires ValidFor(mine)
      requires rmem.At? && 0 <= rmem.off < c.memSize
               ==> Find(c, blocks, rmem.off) < |blocks| && rmem.off != mine + c.headerSize
      modifies this, ram
      ensures ValidFor(mine)
      ensures blocks == if rmem.At? then Apply(c, old(blocks), Free(rmem.off)) else old(blocks)
      ensures DataKept(c, old(ram[..]), ram[..], blocks, -1)
      ensures illegal == old(illegal) + if rmem.At? && !(0 <= rmem.off < c.memSize) then 1 else 0
      ensures err == old(err)
      ensures memFreeCount == (old(memFreeCount) || (rmem.At? && 0 <= rmem.off < c.memSize))
      ensures !memFreeCount ==> blocks == old(blocks) && ram[..] == old(ram[..]) && lfree == old(lfree)
    {
      if rmem.Null? {
        DataUnchanged(c, ram[..], blocks, -1);
        return;
      }
      if rmem.off < 0 || c.memSize <= rmem.off {
        illegal := illegal + 1;
        OutsideIsNotLive(c, blocks, rmem.off);
        DataUnchanged(c, ram[..], blocks, -1);
        return;
      }
      ghost var k := Find(c, blocks, rmem.off);
      Release(rmem.off - c.headerSize, k, mine);
      memFreeCount := true;
    }

    // ---------- mem_trim ----------

    /** Create the header of an unused block at ptr2 and link it in behind the block at ptr. */
    method InsertHeader(ptr: nat, ptr2: nat, next: nat)
      requires ValidConfig(c) && ram.Length == c.memSize + c.headerSize
      requires ptr + c.headerSize <= ptr2 && ptr2 + c.headerSize <= next <= c.memSize
      modifies ram
      ensures Inserted(c, old(ram[..]), ram[..], ptr, ptr2, next)
      ensures Used(ptr) == old(Used(ptr))
    {
      SetUsed(ptr2, false);
      SetNext(ptr2, next);
      SetPrev(ptr2, ptr);
      SetNext(ptr, ptr2);
      if Next(ptr2) != c.memSize {
        SetPrev(Next(ptr2), ptr2);
      }
    }

    /** Replace the blocks from k on by the shrunk block and an unused one behind it. */
    method Insert(ptr: nat, ptr2: nat, next: nat, ghost k: nat, ghost drop: nat)
      requires Standing()
      requires (drop == 1 || drop == 2) && k + drop <= |blocks|
      requires blocks[k].off == ptr && blocks[k + drop - 1].next == next
      requires ptr + c.headerSize + c.minData <= ptr2 && ptr2 + c.headerSize + c.minData <= next
      modifies ram, this`blocks
      ensures blocks == old(blocks)[..k] + [old(blocks)[k].(next := ptr2), Block(ptr2, next, false)]
                        + old(blocks)[k + drop..]
      ensures Tiles(c, blocks, 0, c.memSize) ==> Standing()
      ensures DataKept(c, old(ram[..]), ram[..], blocks, -1)
    {
      ghost var b1, b2 := blocks[k].(next := ptr2), Block(ptr2, next, false);
      Reads(k);
      Reads(k + drop - 1);
      InsertHeader(ptr, ptr2, next);
      InsertLaid(c, old(ram[..]), ram[..], blocks, k, drop, b1, b2);
      blocks := blocks[..k] + [b1, b2] + blocks[k + drop..];
    }

    /** Shrinking the live block k; `mem_trim` between its protection calls. */
    method Shrink(ptr: nat, newsize: nat, ghost k: nat, ghost mine: int)
      requires ValidFor(mine)
      requires k < |blocks| && blocks[k].used && blocks[k].off == ptr && ptr != mine
      requires newsize % c.alignment == 0 && c.minData <= newsize < DataSize(c, blocks[k])
      modifies ram, this`blocks, this`lfree, this`used
      ensures ValidFor(mine) && blocks == TrimAt(c, old(blocks), k, newsize)
      ensures DataKept(c, old(ram[..]), ram[..], blocks, -1)
    {
      hide Tiles, Laid, DataKept, UsedBytes, Live, LowestFree, Coalesced, AlignedTo;
      Reads(k);
      TrimStep(c, blocks, k, newsize, lfree, mine);
      var size := Next(ptr) - ptr - c.headerSize;
      var ptr2 := ptr + c.headerSize + newsize;
      var mem2 := Next(ptr);
      if k + 1 < |blocks| {
        Reads(k + 1);
      }
      if !Used(mem2) {
        var next := Next(mem2);
        if lfree == mem2 {
          lfree := ptr2;
        }
        Insert(ptr, ptr2, next, k, 2);
        used := used - (size - newsize);
      } else if newsize + c.headerSize + c.minData <= size {
        if ptr2 < lfree {
          lfree := ptr2;
        }
        Insert(ptr, ptr2, mem2, k, 1);
        used := used - (size - newsize);
      } else {
        DataUnchanged(c, ram[..], blocks, -1);
      }
    }

    method MemTrim(rmem: Pointer, newsize: MemSize, ghost mine: int) returns (r: Pointer)
      requires ValidFor(mine)
      requires rmem.At? && 0 <= rmem.off < c.memSize
               ==> Find(c, blocks, rmem.off) < |blocks| && rmem.off != mine + c.headerSize
      modifies this, ram
      ensures ValidFor(mine)
      ensures blocks == if rmem.At? then Apply(c, old(blocks), Trim(rmem.off, newsize)) else old(blocks)
      ensures DataKept(c, old(ram[..]), ram[..], blocks, -1)
      ensures r == if c.memSize < RoundSize(c, newsize) then Null
                   else if rmem.At? && Find(c, old(blocks), rmem.off) < |old(blocks)|
                           && DataSize(c, old(blocks)[Find(c, old(blocks), rmem.off)]) < RoundSize(c, newsize)
                   then Null
                   else rmem
      ensures err == old(err)
      ensures old(memFreeCount) ==> memFreeCount
      ensures !memFreeCount ==> blocks == old(blocks) && ram[..] == old(ram[..]) && lfree == old(lfree)
    {
      hide Tiles, Laid, DataKept, UsedBytes, Live, LowestFree, Coalesced, AlignedTo;
      DataUnchanged(c, ram[..], blocks, -1);
      var size := (newsize + c.alignment - 1) / c.alignment * c.alignment % SIZE_MODULUS;
      if size < c.minData {
        size := c.minData;
      }
      assert size == RoundSize(c, newsize);
      if c.memSize < size {
        return Null;
      }
      if rmem.Null? || rmem.off < 0 || c.memSize <= rmem.off {
        illegal := illegal + 1;
        if rmem.At? {
          OutsideIsNotLive(c, blocks, rmem.off);
        }
        return rmem;
      }
      ghost var k := Find(c, blocks, rmem.off);
      var ptr := rmem.off - c.headerSize;
      Reads(k);
      var oldsize := Next(ptr) - ptr - c.headerSize;
      if oldsize < size {
        return Null;
      }
      if size == oldsize {
        return rmem;
      }
      RoundedIsAligned(c, newsize);
      Shrink(ptr, size, k, mine);
      memFreeCount := true;
      return rmem;
    }

    // ---------- The windows of mem_malloc ----------

    /** Whether another context can hold the pointer rmem: it starts the data of a used block. */
    method Holds(rmem: int) returns (live: bool)
      requires Standing()
      ensures live == (Find(c, blocks, rmem) < |blocks|)
    {
      var p := 0;
      ghost var k: nat := 0;
      while p < c.memSize
        invariant k <= |blocks|
        invariant p == if k < |blocks| then blocks[k].off else c.memSize
        invariant k <= Find(c, blocks, rmem)
        decreases c.memSize - p
      {
        Reads(k);
        FindIsFirst(c, blocks, rmem, k);
        if Used(p) && p + c.headerSize == rmem {
          return true;
        }
        p := Next(p);
        k := k + 1;
      }
      if k < |blocks| {
        Reads(k);
      }
      return false;
    }

    /** Another context frees or trims a block it holds, which the one at mine is not. */
    method Interrupt(op: Op, mine: int)
      requires ValidFor(mine)
      modifies this, ram
      ensures ValidFor(mine)
      ensures blocks == if op.rmem == mine + c.headerSize then old(blocks) else Apply(c, old(blocks), op)
      ensures DataKept(c, old(ram[..]), ram[..], blocks, -1)
      ensures err == old(err)
      ensures old(memFreeCount) ==> memFreeCount
      ensures !memFreeCount ==> blocks == old(blocks) && ram[..] == old(ram[..]) && lfree == old(lfree)
    {
      var live := Holds(op.rmem);
      if live && op.rmem != mine + c.headerSize {
        match op
        case Free(rmem) =>
          MemFree(At(rmem), mine);
        case Trim(rmem, size) =>
          var _ := MemTrim(At(rmem), size, mine);
      } else {
        DataUnchanged(c, ram[..], blocks, -1);
      }
    }

    /** The operations another context runs in one window. */
    method Interrupts(ops: seq<Op>, mine: int)
      requires ValidFor(mine) && !memFreeCount
      modifies this, ram
      ensures ValidFor(mine) && err == old(err)
      ensures blocks == ApplyAll(c, old(blocks), Others(c, ops, mine))
      ensures DataKept(c, old(ram[..]), ram[..], blocks, -1)
      ensures !memFreeCount ==> blocks == old(blocks) && ram[..] == old(ram[..]) && lfree == old(lfree)
    {
      hide Tiles, Laid, DataKept, UsedBytes, Live, LowestFree, Coalesced, AlignedTo;
      hide ApplyAll, Apply;
      DataUnchanged(c, ram[..], blocks, -1);
      NoOps(c, blocks, mine);
      var n := 0;
      while n < |ops|
        invariant n <= |ops|
        invariant ValidFor(mine) && err == old(err)
        invariant blocks == ApplyAll(c, old(blocks), Others(c, ops[..n], mine))
        invariant DataKept(c, old(ram[..]), ram[..], blocks, -1)
        invariant !memFreeCount ==> blocks == old(blocks) && ram[..] == old(ram[..]) && lfree == old(lfree)
      {
        ghost var m, bs := ram[..], blocks;
        Interrupt(ops[n], mine);
        OneInterrupt(c, old(blocks), ops, n, mine);
        DataKeptThenApply(c, old(ram[..]), m, ram[..], bs, ops[n], blocks);
        n := n + 1;
      }
      assert ops[..n] == ops;
    }

    /** Clear the flag, give up the protection and take it again: another context runs the
        operations of window i. */
    method Window(env: seq<seq<Op>>, i: nat, mine: int) returns (j: nat)
      requires ValidFor(mine) && i <= |env|
      modifies this, ram
      ensures ValidFor(mine) && err == old(err)
      ensures j == if i < |env| then i + 1 else i
      ensures blocks == AfterWindows(c, old(blocks), env, i, j, mine)
      ensures DataKept(c, old(ram[..]), ram[..], blocks, -1)
      ensures memFreeCount ==> i < j
      ensures !memFreeCount ==> blocks == old(blocks) && ram[..] == old(ram[..]) && lfree == old(lfree)
    {
      hide Tiles, Laid, DataKept, UsedBytes, Live, LowestFree, Coalesced, AlignedTo;
      hide AfterWindows, ApplyAll;
      memFreeCount := false;
      if i == |env| {
        NoWindows(c, blocks, env, i, mine);
        DataUnchanged(c, ram[..], blocks, -1);
        return i;
      }
      Interrupts(env[i], mine);
      OneWindow(c, old(blocks), env, i, mine);
      return i + 1;
    }

    // ---------- mem_malloc ----------

    /** Write the headers for giving out block k, split when there is room for the rest. */
    method WriteTaken(mem: nat, size: nat, ghost k: nat)
      requires Standing()
      requires k < |blocks| && blocks[k].off == mem && Fits(c, blocks[k], size) && c.minData <= size
      requires Tiles(c, Take(c, blocks, k, size), 0, c.memSize)
      modifies ram, this`blocks, this`used
      ensures Standing() && blocks == Take(c, old(blocks), k, size)
      ensures DataKept(c, old(ram[..]), ram[..], blocks, mem)
      ensures used == old(used) + if size + c.headerSize + c.minData <= DataSize(c, old(blocks)[k])
                                  then size + c.headerSize else old(blocks)[k].next - mem
    {
      hide Tiles, Laid, DataKept, UsedBytes, Live, LowestFree, Coalesced, AlignedTo;
      ghost var bs := blocks;
      Reads(k);
      var next := Next(mem);
      if size + c.headerSize + c.minData <= next - (mem + c.headerSize) {
        var ptr2 := mem + c.headerSize + size;
        InsertHeader(mem, ptr2, next);
        ghost var m1 := ram[..];
        SetUsed(mem, true);
        TakeSplitLaid(c, old(ram[..]), m1, ram[..], bs, k, ptr2);
        used := used + (size + c.headerSize);
      } else {
        SetUsed(mem, true);
        FlagLaid(c, old(ram[..]), ram[..], bs, k, true);
        TakeKeepsData(c, old(ram[..]), ram[..], bs, k, size);
        used := used + (next - mem);
      }
      blocks := Take(c, bs, k, size);
    }

    /** Give out the unused block k. `lfree` may be left pointing at it. */
    method TakeBlock(mem: nat, size: nat, ghost k: nat)
      requires Valid()
      requires k < |blocks| && blocks[k].off == mem && Fits(c, blocks[k], size)
      requires size % c.alignment == 0 && c.minData <= size
      modifies ram, this`blocks, this`used
      ensures ValidFor(mem) && blocks == Take(c, old(blocks), k, size)
      ensures DataKept(c, old(ram[..]), ram[..], blocks, mem)
    {
      TakeStep(c, blocks, k, size);
      WriteTaken(mem, size, k);
    }

    /** Look for the lowest unused block from the block just given out on, which is where
        `lfree` still points. Windows that change the heap end the search. */
    method SearchLowest(mem: nat, env: seq<seq<Op>>, i: nat) returns (j: nat, cur: nat, disturbed: bool)
      requires ValidFor(mem) && lfree == mem && i <= |env|
      modifies this, ram
      ensures ValidFor(mem) && err == old(err)
      ensures i <= j <= |env| && blocks == AfterWindows(c, old(blocks), env, i, j, mem)
      ensures DataKept(c, old(ram[..]), ram[..], blocks, -1)
      ensures if disturbed then i < j else cur == LowestFree(c, blocks)
    {
      hide Tiles, Laid, DataKept, UsedBytes, Live, LowestFree, Coalesced, AlignedTo;
      hide AfterWindows, Find;
      j, cur, disturbed := i, lfree, false;
      NotFound(c, blocks, mem + c.headerSize);
      ghost var k: nat := Find(c, blocks, mem + c.headerSize);
      BelowLowest(c, blocks, k);
      NoWindows(c, blocks, env, i, mem);
      DataUnchanged(c, ram[..], blocks, -1);
      Reads(k);
      while Used(cur) && cur != c.memSize
        invariant ValidFor(mem) && err == old(err)
        invariant ram[..] == old(ram[..]) && blocks == old(blocks)
        invariant i <= j <= |env| && blocks == AfterWindows(c, old(blocks), env, i, j, mem)
        invariant k <= |blocks| && cur == (if k < |blocks| then blocks[k].off else c.memSize)
        invariant cur <= c.memSize && AllUsed(blocks[..k])
        decreases c.memSize - cur
      {
        ghost var j0 := j;
        j := Window(env, j, mem);
        WindowsJoin(c, old(blocks), env, i, j0, j, mem);
        if memFreeCount {
          disturbed := true;
          return;
        }
        Reads(k);
        WalkStep(c, blocks, k);
        cur := Next(cur);
        k := k + 1;
      }
      if k < |blocks| {
        Reads(k);
      }
      WalkFindsLowest(c, blocks, k);
    }

    /** Move `lfree` off the block just given out, starting over after each disturbance. */
    method AdjustLfree(mem: nat, env: seq<seq<Op>>, i: nat) returns (j: nat)
      requires ValidFor(mem) && i <= |env|
      modifies this, ram
      ensures Valid() && err == old(err)
      ensures mem in Live(blocks)
      ensures i <= j <= |env| && blocks == AfterWindows(c, old(blocks), env, i, j, mem)
      ensures DataKept(c, old(ram[..]), ram[..], blocks, -1)
    {
      hide Tiles, Laid, DataKept, UsedBytes, Live, LowestFree, Coalesced, AlignedTo;
      hide AfterWindows;
      j := i;
      NoWindows(c, blocks, env, i, mem);
      DataUnchanged(c, ram[..], blocks, -1);
      while mem == lfree
        invariant ValidFor(mem) && err == old(err)
        invariant i <= j <= |env| && blocks == AfterWindows(c, old(blocks), env, i, j, mem)
        invariant DataKept(c, old(ram[..]), ram[..], blocks, -1)
        decreases |env| - j
      {
        ghost var m, bs, j0 := ram[..], blocks, j;
        var cur, disturbed;
        j, cur, disturbed := SearchLowest(mem, env, j);
        WindowsJoin(c, old(blocks), env, i, j0, j, mem);
        DataKeptThenWindow(c, old(ram[..]), m, ram[..], bs, env, j0, j, mem, -1);
        if !disturbed {
          lfree := cur;
          break;
        }
      }
    }

    /** One scan of `mem_malloc`: from `lfree` on, with a window before each block is looked at.
        The scan ends at a block that fits, at its bound, or when a window changed the heap. */
    method Scan(size: nat, env: seq<seq<Op>>, i: nat) returns (j: nat, ptr: nat, found: bool, disturbed: bool)
      requires Valid() && i <= |env|
      modifies this, ram
      ensures Valid() && err == old(err)
      ensures i <= j <= |env| && blocks == AfterWindows(c, old(blocks), env, i, j, -1)
      ensures DataKept(c, old(ram[..]), ram[..], blocks, -1)
      ensures !(found && disturbed)
      ensures disturbed ==> i < j
      ensures !disturbed ==> found == (FirstFit(c, blocks, size) < |blocks|)
      ensures found ==> ptr == blocks[FirstFit(c, blocks, size)].off
    {
      hide Tiles, Laid, DataKept, UsedBytes, Live, LowestFree, Coalesced, AlignedTo;
      hide FirstFit, AfterWindows;
      j, ptr, found, disturbed := i, lfree, false, false;
      ghost var k: nat := LowestIndex(c, blocks);
      UsedDoNotFit(c, blocks, k, size);
      NoWindows(c, blocks, env, i, -1);
      DataUnchanged(c, ram[..], blocks, -1);
      while ptr < c.memSize - size
        invariant Valid() && err == old(err)
        invariant ram[..] == old(ram[..]) && blocks == old(blocks)
        invariant i <= j <= |env| && blocks == AfterWindows(c, old(blocks), env, i, j, -1)
        invariant k <= FirstFit(c, blocks, size)
        invariant ptr == (if k < |blocks| then blocks[k].off else c.memSize)
        decreases c.memSize - ptr
      {
        ghost var j0 := j;
        j := Window(env, j, -1);
        WindowsJoin(c, old(blocks), env, i, j0, j, -1);
        if memFreeCount {
          disturbed := true;
          return;
        }
        Reads(k);
        FirstFitIsFirst(c, blocks, size, k);
        if !Used(ptr) && size <= Next(ptr) - (ptr + c.headerSize) {
          found := true;
          return;
        }
        ptr := Next(ptr);
        k := k + 1;
      }
      BoundIsComplete(c, blocks, k, size);
    }

    /** Give out the block that a scan found, and bring `lfree` up to date. */
    method Finish(mem: nat, size: nat, env: seq<seq<Op>>, i: nat, ghost m: seq<byte>)
      returns (rmem: Pointer, ghost ran: nat)
      requires Valid() && i <= |env|
      requires size % c.alignment == 0 && c.minData <= size
      requires FirstFit(c, blocks, size) < |blocks| && mem == blocks[FirstFit(c, blocks, size)].off
      requires |m| == ram.Length && DataKept(c, m, ram[..], blocks, -1)
      modifies this, ram
      ensures Valid() && err == old(err)
      ensures i <= ran <= |env| && rmem == At(mem + c.headerSize)
      ensures blocks == AfterWindows(c, Take(c, old(blocks), FirstFit(c, old(blocks), size), size), env, i, ran, mem)
      ensures mem in Live(blocks)
      ensures DataKept(c, m, ram[..], blocks, mem)
    {
      hide Tiles, Laid, DataKept, UsedBytes, Live, LowestFree, Coalesced, AlignedTo;
      ghost var k := FirstFit(c, blocks, size);
      ghost var m0, bs0 := ram[..], blocks;
      TakeBlock(mem, size, k);
      ghost var m1, bs1 := ram[..], blocks;
      assert DataKept(c, m, m1, bs1, mem) by {
        TakeKeepsData(c, m, m0, bs0, k, size);
        DataKeptThen(c, m, m0, m1, bs1, mem);
      }
      var j := AdjustLfree(mem, env, i);
      ran := j;
      DataKeptThenWindow(c, m, m1, ram[..], bs1, env, i, j, mem, mem);
      rmem := At(mem + c.headerSize);
    }

    /** Scan for a rounded size, from the start again as long as windows change the heap. */
    method Search(size: nat, env: seq<seq<Op>>) returns (rmem: Pointer, ghost taken: nat, ghost ran: nat)
      requires Valid() && size % c.alignment == 0 && c.minData <= size
      modifies this, ram
      ensures Valid() && taken <= ran <= |env|
      ensures Outcome(c, old(blocks), size, env, rmem, taken, ran, blocks)
      ensures err == old(err) + if rmem.Null? then 1 else 0
      ensures DataKept(c, old(ram[..]), ram[..], blocks, if rmem.At? then rmem.off - c.headerSize else -1)
    {
      hide Tiles, Laid, DataKept, UsedBytes, Live, LowestFree, Coalesced, AlignedTo;
      hide FirstFit, Take, AfterWindows;
      NoWindows(c, blocks, env, 0, -1);
      DataUnchanged(c, ram[..], blocks, -1);
      var i := 0;
      var disturbed := true;
      while disturbed
        invariant Valid() && err == old(err)
        invariant i <= |env| && blocks == AfterWindows(c, old(blocks), env, 0, i, -1)
        invariant DataKept(c, old(ram[..]), ram[..], blocks, -1)
        invariant !disturbed ==> FirstFit(c, blocks, size) == |blocks|
        decreases |env| - i, disturbed
      {
        ghost var m, bs, i0 := ram[..], blocks, i;
        var ptr, found;
        i, ptr, found, disturbed := Scan(size, env, i);
        WindowsJoin(c, old(blocks), env, 0, i0, i, -1);
        DataKeptThenWindow(c, old(ram[..]), m, ram[..], bs, env, i0, i, -1, -1);
        if found {
          taken := i;
          rmem, ran := Finish(ptr, size, env, i, old(ram[..]));
          return;
        }
      }
      err := err + 1;
      return Null, i, i;
    }

    /** `mem_malloc` while another context may free and trim in its windows: window number n of
        env runs in the n-th window that the call opens. The ghost results say how many windows
        ran before the block was given out (or given up on) and how many in all. */
    method MemMalloc(request: MemSize, env: seq<seq<Op>>) returns (rmem: Pointer, ghost taken: nat, ghost ran: nat)
      requires Valid()
      modifies this, ram
      ensures Valid()
      ensures taken <= ran <= |env|
      ensures if request == 0 || c.memSize < RoundSize(c, request) then
                rmem == Null && blocks == old(blocks) && err == old(err)
              else
                && Outcome(c, old(blocks), RoundSize(c, request), env, rmem, taken, ran, blocks)
                && err == old(err) + if rmem.Null? then 1 else 0
      ensures DataKept(c, old(ram[..]), ram[..], blocks, if rmem.At? then rmem.off - c.headerSize else -1)
    {
      hide Tiles, Laid, DataKept, UsedBytes, Live, LowestFree, Coalesced, AlignedTo;
      if request == 0 {
        DataUnchanged(c, ram[..], blocks, -1);
        return Null, 0, 0;
      }
      var size := (request + c.alignment - 1) / c.alignment * c.alignment % SIZE_MODULUS;
      if size < c.minData {
        size := c.minData;
      }
      assert size == RoundSize(c, request);
      if c.memSize < size {
        DataUnchanged(c, ram[..], blocks, -1);
        return Null, 0, 0;
      }
      RoundedIsAligned(c, request);
      rmem, taken, ran := Search(size, env);
    }
  }
}

/** The lwIP heap seen as the list of its blocks, lowest address first.

    A block is what a `struct mem` header describes: its own offset in the arena, the
    offset of the next header, and the used flag. This module defines what a well formed
    list is and what the allocator's operations do to the list. Modules HeapLaws and
    HeapMeasures prove what the operations keep; module HeapArena ties the list to the bytes
    of the arena. */
module HeapBlocks {

  /** `MEM_SIZE_ALIGNED`, `SIZEOF_STRUCT_MEM`, `MIN_SIZE_ALIGNED` and `MEM_ALIGNMENT`. */
  datatype Config = Config(memSize: nat, headerSize: nat, minData: nat, alignment: nat)

  /** The modulus of `mem_size_t`, which is `u16_t` while `MEM_SIZE` is at most 64000. */
  const SIZE_MODULUS := 0x1_0000

  type MemSize = n: int | 0 <= n < 0x1_0000

  /** The constants are multiples of the alignment, which divides the modulus (it is a power
      of two); a header holds two `mem_size_t` and a flag byte, and the arena holds at least
      one block. */
  predicate ValidConfig(c: Config)
  {
    && 0 < c.alignment
    && 5 <= c.headerSize
    && 0 < c.minData
    && c.headerSize + c.minData <= c.memSize <= 64000
    && SIZE_MODULUS % c.alignment == 0
    && c.memSize % c.alignment == 0
    && c.headerSize % c.alignment == 0
    && c.minData % c.alignment == 0
  }

  datatype Block = Block(off: nat, next: nat, used: bool)

  // ---------- Well formed lists ----------

  /** The blocks tile [lo, hi) in address order, each with room for a header and data. */
  predicate Tiles(c: Config, bs: seq<Block>, lo: int, hi: int)
  {
    if bs == [] then lo == hi
    else
      && bs[0].off == lo
      && Roomy(c, bs[0])
      && Tiles(c, bs[1..], bs[0].next, hi)
  }

  predicate Roomy(c: Config, b: Block)
  {
    b.off + c.headerSize + c.minData <= b.next
  }

  /** No unused block is directly followed by another one. */
  predicate Coalesced(bs: seq<Block>)
  {
    2 <= |bs| ==> (bs[0].used || bs[1].used) && Coalesced(bs[1..])
  }

  /** Every block starts at a multiple of n. */
  predicate AlignedTo(n: nat, bs: seq<Block>)
    requires 0 < n
  {
    bs == [] || (bs[0].off % n == 0 && AlignedTo(n, bs[1..]))
  }

  predicate WellFormed(c: Config, bs: seq<Block>)
  {
    && Tiles(c, bs, 0, c.memSize)
    && Coalesced(bs)
    && 0 < c.alignment
    && AlignedTo(c.alignment, bs)
  }

  /** The list after `mem_init`. */
  function Initial(c: Config): (bs: seq<Block>)
  {
    [Block(0, c.memSize, false)]
  }

  /** The size of a block's data area. */
  function DataSize(c: Config, b: Block): (n: int)
  {
    b.next - b.off - c.headerSize
  }

  /** `lfree`: the offset of the lowest unused block, or that of `ram_end`. */
  function LowestFree(c: Config, bs: seq<Block>): (off: nat)
  {
    if bs == [] then c.memSize
    else if !bs[0].used then bs[0].off
    else LowestFree(c, bs[1..])
  }

  // ---------- Rounding a request ----------

  /** `LWIP_MEM_ALIGN_SIZE` stored back into a `mem_size_t`, then raised to the minimum. */
  function RoundSize(c: Config, size: nat): (n: nat)
    requires 0 < c.alignment
  {
    var aligned := ((size + c.alignment - 1) / c.alignment * c.alignment) % SIZE_MODULUS;
    if aligned < c.minData then c.minData else aligned
  }

  // ---------- The operations ----------

  predicate Fits(c: Config, b: Block, size: nat)
  {
    !b.used && size <= DataSize(c, b)
  }

  /** The index of the lowest block that is unused and large enough, or the length. */
  function FirstFit(c: Config, bs: seq<Block>, size: nat): (k: nat)
    ensures k <= |bs|
    ensures k < |bs| ==> Fits(c, bs[k], size)
  {
    if bs == [] then 0
    else if Fits(c, bs[0], size) then 0
    else 1 + FirstFit(c, bs[1..], size)
  }

  /** Give out block k: split off the rest when a header and minimal data fit into it. */
  function Take(c: Config, bs: seq<Block>, k: nat, size: nat): (r: seq<Block>)
    requires k < |bs| && Fits(c, bs[k], size)
  {
    var b := bs[k];
    if size + c.headerSize + c.minData <= DataSize(c, b) then
      var rest := b.off + c.headerSize + size;
      bs[..k] + [Block(b.off, rest, true), Block(rest, b.next, false)] + bs[k + 1..]
    else
      bs[k := b.(used := true)]
  }

  /** `mem_malloc` for a rounded size, as one atomic step. */
  function Allocate(c: Config, bs: seq<Block>, size: nat): (r: seq<Block>)
  {
    var k := FirstFit(c, bs, size);
    if k < |bs| then Take(c, bs, k, size) else bs
  }

  /** Combine block k with the block after it. */
  function Merge(bs: seq<Block>, k: nat): (r: seq<Block>)
    requires k + 1 < |bs|
  {
    bs[..k] + [bs[k].(next := bs[k + 1].next)] + bs[k + 2..]
  }

  /** The forward half of `plug_holes`. */
  function PlugForward(bs: seq<Block>, k: nat): (r: seq<Block>)
    requires k < |bs|
  {
    if k + 1 < |bs| && !bs[k + 1].used then Merge(bs, k) else bs
  }

  /** The backward half of `plug_holes`. */
  function PlugBackward(bs: seq<Block>, k: nat): (r: seq<Block>)
    requires k < |bs|
  {
    if 0 < k && !bs[k - 1].used then Merge(bs, k - 1) else bs
  }

  /** `mem_free` of block k. */
  function FreeAt(bs: seq<Block>, k: nat): (r: seq<Block>)
    requires k < |bs|
  {
    PlugBackward(PlugForward(bs[k := bs[k].(used := false)], k), k)
  }

  /** `mem_trim` of block k to a rounded size. */
  function TrimAt(c: Config, bs: seq<Block>, k: nat, size: nat): (r: seq<Block>)
    requires k < |bs|
  {
    var b := bs[k];
    var rest := b.off + c.headerSize + size;
    if DataSize(c, b) <= size then bs
    else if k + 1 < |bs| && !bs[k + 1].used then
      bs[..k] + [b.(next := rest), Block(rest, bs[k + 1].next, false)] + bs[k + 2..]
    else if size + c.headerSize + c.minData <= DataSize(c, b) then
      bs[..k] + [b.(next := rest), Block(rest, b.next, false)] + bs[k + 1..]
    else bs
  }

  /** What another context may do to the heap while `mem_malloc` opens a window. */
  datatype Op = Free(rmem: int) | Trim(rmem: int, size: MemSize)

  /** The index of the used block whose data area starts at rmem, or the length. */
  function Find(c: Config, bs: seq<Block>, rmem: int): (k: nat)
    ensures k <= |bs|
    ensures k < |bs| ==> bs[k].used && bs[k].off + c.headerSize == rmem
  {
    if bs == [] then 0
    else if bs[0].used && bs[0].off + c.headerSize == rmem then 0
    else 1 + Find(c, bs[1..], rmem)
  }

  /** The effect of one operation; without a live block at rmem there is none. */
  function Apply(c: Config, bs: seq<Block>, op: Op): (r: seq<Block>)
    requires 0 < c.alignment
  {
    var k := Find(c, bs, op.rmem);
    if k == |bs| then bs
    else if op.Free? then FreeAt(bs, k)
    else
      var size := RoundSize(c, op.size);
      if c.memSize < size then bs else TrimAt(c, bs, k, size)
  }

  function ApplyAll(c: Config, bs: seq<Block>, ops: seq<Op>): (r: seq<Block>)
    requires 0 < c.alignment
  {
    if ops == [] then bs
    else Apply(c, ApplyAll(c, bs, ops[..|ops| - 1]), ops[|ops| - 1])
  }

  /** The operations of a sequence of windows, in order. */
  function Flatten(windows: seq<seq<Op>>): (ops: seq<Op>)
  {
    if windows == [] then []
    else Flatten(windows[..|windows| - 1]) + windows[|windows| - 1]
  }

  /** The operations on blocks other than the one at offset mine. */
  function Others(c: Config, ops: seq<Op>, mine: int): (r: seq<Op>)
  {
    if ops == [] then []
    else
      var front, op := ops[..|ops| - 1], ops[|ops| - 1];
      if op.rmem == mine + c.headerSize then Others(c, front, mine) else Others(c, front, mine) + [op]
  }

  /** The block list after another context ran windows i up to j, leaving alone the block at
      offset mine. */
  function AfterWindows(c: Config, bs: seq<Block>, env: seq<seq<Op>>, i: nat, j: nat, mine: int): (r: seq<Block>)
    requires 0 < c.alignment && i <= j <= |env|
  {
    ApplyAll(c, bs, Others(c, Flatten(env[i..j]), mine))
  }
}

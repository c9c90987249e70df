/** Whole runs of the allocator. */
module HeapRuns {
  import opened HeapBlocks
  import opened HeapLaws
  import opened HeapMeasures
  import opened HeapArena
  import H = Heap

  datatype Request =
    | Malloc(request: MemSize, env: seq<seq<Op>>)
    | Call(op: Op)

  /** The request does not hand over the block at offset off to be freed or trimmed. */
  ghost predicate Spares(c: Config, r: Request, off: nat)
  {
    match r
    case Malloc(_, env) => forall i, n :: 0 <= i < |env| && 0 <= n < |env[i]| ==> env[i][n].rmem != off + c.headerSize
    case Call(op) => op.rmem != off + c.headerSize
  }

  // ---------- A live block outlasts the operations on others ----------

  lemma SplitSpares(bs: seq<Block>, k: nat, drop: nat, mid: seq<Block>, b: Block)
    requires k + drop <= |bs| && b in bs
    requires forall i :: k <= i < k + drop ==> bs[i] != b
    ensures b in bs[..k] + mid + bs[k + drop..]
  {
    var i :| 0 <= i < |bs| && bs[i] == b;
    if i < k {
      assert b in bs[..k];
    } else {
      assert b in bs[k + drop..];
    }
  }

  lemma FreeSpares(bs: seq<Block>, k: nat, b: Block)
    requires k < |bs| && b in bs && b.used && b != bs[k]
    ensures b in FreeAt(bs, k)
  {
    FreeShape(bs, k);
    var lo, hi := FreeLow(bs, k), FreeHigh(bs, k);
    SplitSpares(bs, lo, hi + 1 - lo, [Block(bs[lo].off, bs[hi].next, false)], b);
  }

  lemma TrimSpares(c: Config, bs: seq<Block>, k: nat, size: nat, b: Block)
    requires k < |bs| && b in bs && b.used && b != bs[k]
    ensures b in TrimAt(c, bs, k, size)
  {
    var rest := bs[k].off + c.headerSize + size;
    if DataSize(c, bs[k]) <= size {
    } else if k + 1 < |bs| && !bs[k + 1].used {
      SplitSpares(bs, k, 2, [bs[k].(next := rest), Block(rest, bs[k + 1].next, false)], b);
    } else if size + c.headerSize + c.minData <= DataSize(c, bs[k]) {
      SplitSpares(bs, k, 1, [bs[k].(next := rest), Block(rest, bs[k].next, false)], b);
    }
  }

  lemma TakeSpares(c: Config, bs: seq<Block>, k: nat, size: nat, b: Block)
    requires k < |bs| && Fits(c, bs[k], size) && b in bs && b.used
    ensures b in Take(c, bs, k, size)
  {
    var rest := bs[k].off + c.headerSize + size;
    if size + c.headerSize + c.minData <= DataSize(c, bs[k]) {
      SplitSpares(bs, k, 1, [Block(bs[k].off, rest, true), Block(rest, bs[k].next, false)], b);
    } else {
      SplitSpares(bs, k, 1, [bs[k].(used := true)], b);
      assert bs[k := bs[k].(used := true)] == bs[..k] + [bs[k].(used := true)] + bs[k + 1..];
    }
  }

  lemma ApplySpares(c: Config, bs: seq<Block>, op: Op, b: Block)
    requires 0 < c.alignment && b in bs && b.used && op.rmem != b.off + c.headerSize
    ensures b in Apply(c, bs, op)
  {
    var k := Find(c, bs, op.rmem);
    if k < |bs| {
      if op.Free? {
        FreeSpares(bs, k, b);
      } else {
        TrimSpares(c, bs, k, RoundSize(c, op.size), b);
      }
    }
  }

  lemma {:induction false} ApplyAllSpares(c: Config, bs: seq<Block>, ops: seq<Op>, b: Block)
    requires 0 < c.alignment && b in bs && b.used
    requires forall op :: op in ops ==> op.rmem != b.off + c.headerSize
    ensures b in ApplyAll(c, bs, ops)
  {
    if ops != [] {
      var front, op := ops[..|ops| - 1], ops[|ops| - 1];
      ApplyAllSpares(c, bs, front, b);
      ApplySpares(c, ApplyAll(c, bs, front), op, b);
    }
  }

  lemma {:induction false} OthersAreOps(c: Config, ops: seq<Op>, mine: int, op: Op)
    requires op in Others(c, ops, mine)
    ensures op in ops
  {
    var front := ops[..|ops| - 1];
    if op in Others(c, front, mine) {
      OthersAreOps(c, front, mine, op);
    }
  }

  lemma {:induction false} FlattenAreOps(windows: seq<seq<Op>>, op: Op) returns (i: nat, n: nat)
    requires op in Flatten(windows)
    ensures i < |windows| && n < |windows[i]| && windows[i][n] == op
  {
    var front, last := windows[..|windows| - 1], windows[|windows| - 1];
    if op in last {
      i := |windows| - 1;
      n :| 0 <= n < |last| && last[n] == op;
    } else {
      i, n := FlattenAreOps(front, op);
    }
  }

  lemma WindowsSpare(c: Config, bs: seq<Block>, env: seq<seq<Op>>, i: nat, j: nat, mine: int, b: Block)
    requires 0 < c.alignment && i <= j <= |env| && b in bs && b.used
    requires Spares(c, Malloc(0, env), b.off)
    ensures b in AfterWindows(c, bs, env, i, j, mine)
  {
    var ops := Others(c, Flatten(env[i..j]), mine);
    forall op | op in ops
      ensures op.rmem != b.off + c.headerSize
    {
      OthersAreOps(c, Flatten(env[i..j]), mine, op);
      var x, n := FlattenAreOps(env[i..j], op);
      assert env[i + x][n] == op;
    }
    ApplyAllSpares(c, bs, ops, b);
  }

  lemma {:induction false} ApplyAllKeeps(c: Config, bs: seq<Block>, ops: seq<Op>)
    requires ValidConfig(c) && WellFormed(c, bs)
    ensures WellFormed(c, ApplyAll(c, bs, ops))
  {
    if ops != [] {
      ApplyAllKeeps(c, bs, ops[..|ops| - 1]);
      ApplyKeeps(c, ApplyAll(c, bs, ops[..|ops| - 1]), ops[|ops| - 1]);
    }
  }

  lemma OffsetsDiffer(c: Config, bs: seq<Block>, k: nat, b: Block)
    requires 0 < c.headerSize && Tiles(c, bs, 0, c.memSize) && k < |bs| && b in bs && b != bs[k]
    ensures b.off != bs[k].off
  {
    var i :| 0 <= i < |bs| && bs[i] == b;
    if i < k {
      Ordered(c, bs, i, k, 0, c.memSize);
      TilesPart(c, bs, i, 0, c.memSize);
    } else {
      Ordered(c, bs, k, i, 0, c.memSize);
      TilesPart(c, bs, k, 0, c.memSize);
    }
  }

  /** An allocation neither removes nor moves a live block, and does not give it out again. */
  lemma MallocSpares(c: Config, before: seq<Block>, size: nat, env: seq<seq<Op>>, rmem: H.Pointer,
                     taken: nat, ran: nat, after: seq<Block>, b: Block)
    requires ValidConfig(c) && WellFormed(c, before)
    requires taken <= ran <= |env| && b in before && b.used
    requires H.Outcome(c, before, size, env, rmem, taken, ran, after)
    requires Spares(c, Malloc(0, env), b.off)
    ensures b in after
    ensures rmem.At? ==> b.off != rmem.off - c.headerSize
  {
    var bs := AfterWindows(c, before, env, 0, taken, -1);
    WindowsSpare(c, before, env, 0, taken, -1, b);
    var k := FirstFit(c, bs, size);
    if k < |bs| {
      ApplyAllKeeps(c, before, Others(c, Flatten(env[0..taken]), -1));
      OffsetsDiffer(c, bs, k, b);
      TakeSpares(c, bs, k, size, b);
      WindowsSpare(c, Take(c, bs, k, size), env, taken, ran, bs[k].off, b);
    }
  }

  /** Serve the requests in order; a request on a pointer that is not live is not made. */
  method Serve(heap: H.Heap, requests: seq<Request>, ghost b: Block)
    requires heap.Valid() && b in heap.blocks && b.used
    requires forall r :: r in requests ==> Spares(heap.c, r, b.off)
    modifies heap, heap.ram
    ensures heap.Valid() && b in heap.blocks
    ensures Agree(old(heap.ram[..]), heap.ram[..], b.off + heap.c.headerSize, b.next)
  {
    var n := 0;
    while n < |requests|
      invariant n <= |requests|
      invariant heap.Valid() && b in heap.blocks
      invariant Agree(old(heap.ram[..]), heap.ram[..], b.off + heap.c.headerSize, b.next)
    {
      ServeOne(heap, requests[n], b);
      n := n + 1;
    }
  }

  method ServeOne(heap: H.Heap, request: Request, ghost b: Block)
    requires heap.Valid() && b in heap.blocks && b.used
    requires Spares(heap.c, request, b.off)
    modifies heap, heap.ram
    ensures heap.Valid() && b in heap.blocks
    ensures Agree(old(heap.ram[..]), heap.ram[..], b.off + heap.c.headerSize, b.next)
  {
    match request
    case Malloc(size, env) =>
      var rmem, taken, ran := heap.MemMalloc(size, env);
      ghost var c, mine := heap.c, if rmem.At? then rmem.off - heap.c.headerSize else -1;
      if size != 0 && RoundSize(c, size) <= c.memSize {
        MallocSpares(c, old(heap.blocks), RoundSize(c, size), env, rmem, taken, ran, heap.blocks, b);
      }
      DataKeptBy(c, old(heap.ram[..]), heap.ram[..], heap.blocks, b, mine);
    case Call(op) =>
      heap.Interrupt(op, -1);
      ApplySpares(heap.c, old(heap.blocks), op, b);
      DataKeptBy(heap.c, old(heap.ram[..]), heap.ram[..], heap.blocks, b, -1);
  }
}

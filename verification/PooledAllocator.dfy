/** The pooled allocator behind the tree nodes: a bump allocator over blocks from the system. */
module PooledAllocator {

  const WORDSIZE: nat := 16
  const BLOCKSIZE: nat := 8192
  const HEADER: nat := 8

  datatype Block = Block(addr: nat, size: nat)

  /** What the system's malloc answers, should it be asked. */
  datatype System = Refuses | Gives(addr: nat)

  datatype Pointer = Null | At(addr: nat)

  datatype Pool = Pool(remaining: nat, loc: nat, used: nat, wasted: nat, blocks: seq<Block>)

  /** The request rounded up to whole words: adding 15 and masking the low four bits. */
  function RoundUp(req: nat): (size: nat)
    ensures req <= size < req + WORDSIZE && size % WORDSIZE == 0
  {
    (req + (WORDSIZE - 1)) / WORDSIZE * WORDSIZE
  }

  function BlockSizeFor(size: nat): (b: nat)
    ensures size + HEADER <= b
  {
    if size + HEADER + (WORDSIZE - 1) > BLOCKSIZE then size + HEADER + (WORDSIZE - 1) else BLOCKSIZE
  }

  /** A block has 8192 bytes, unless that is too little for the chunk: then 15 bytes stay behind it. */
  lemma BlockSizes(size: nat)
    ensures size <= 8169 ==> BlockSizeFor(size) == 8192
    ensures size > 8169 ==> BlockSizeFor(size) == 8 + size + 15 > 8192
  {
  }

  /** Cuts size bytes off the newest block. */
  function Cut(p: Pool, size: nat): Pool
    requires size <= p.remaining
  {
    p.(loc := p.loc + size, remaining := p.remaining - size, used := p.used + size)
  }

  /** Books the rest of the newest block as wasted. */
  function GiveUp(p: Pool): Pool {
    p.(wasted := p.wasted + p.remaining)
  }

  /** Starts a new block, whose first word points to the previous one. */
  function Enter(p: Pool, b: Block): Pool
    requires HEADER <= b.size
  {
    p.(blocks := p.blocks + [b], remaining := b.size - HEADER, loc := b.addr + HEADER)
  }

  /** One request: the new pool and the pointer returned. The bytes left over are booked as wasted
      before the system is asked, so also when it refuses. */
  function Malloc(p: Pool, req: nat, sys: System): (Pool, Pointer) {
    var size := RoundUp(req);
    if size <= p.remaining then
      (Cut(p, size), At(p.loc))
    else
      match sys
      case Refuses => (GiveUp(p), Null)
      case Gives(m) =>
        var q := Enter(GiveUp(p), Block(m, BlockSizeFor(size)));
        (Cut(q, size), At(q.loc))
  }

  // ---------- the class

  /** The blocks can be reached from `base`: the first word of each points to the one obtained before it. */
  ghost predicate Chain(base: Pointer, heads: map<nat, Pointer>, blocks: seq<Block>)
    decreases |blocks|
  {
    if blocks == [] then base == Null else
    var a := blocks[|blocks| - 1].addr;
    base == At(a) && a in heads && Chain(heads[a], heads, blocks[..|blocks| - 1])
  }

  ghost function Addresses(blocks: seq<Block>): set<nat> {
    set i | 0 <= i < |blocks| :: blocks[i].addr
  }

  ghost predicate DistinctBlocks(blocks: seq<Block>) {
    forall i, j :: 0 <= i < j < |blocks| ==> blocks[i].addr != blocks[j].addr
  }

  /** A chain of different blocks, with a first word for each of them and for no other. */
  ghost predicate Linked(base: Pointer, heads: map<nat, Pointer>, blocks: seq<Block>) {
    Chain(base, heads, blocks) && DistinctBlocks(blocks) && heads.Keys == Addresses(blocks)
  }

  /** The chain does not depend on words outside its blocks. */
  lemma {:induction false} ChainFrame(base: Pointer, heads: map<nat, Pointer>, heads': map<nat, Pointer>,
                                      blocks: seq<Block>)
    requires Chain(base, heads, blocks)
    requires forall i :: 0 <= i < |blocks| && blocks[i].addr in heads ==>
      blocks[i].addr in heads' && heads'[blocks[i].addr] == heads[blocks[i].addr]
    ensures Chain(base, heads', blocks)
    decreases |blocks|
  {
    if blocks == [] {
    } else {
      ChainFrame(heads[blocks[|blocks| - 1].addr], heads, heads', blocks[..|blocks| - 1]);
    }
  }

  class Allocator {
    var remaining: nat
    var base: Pointer
    var loc: nat
    var usedMemory: nat
    var wastedMemory: nat
    /** The first word of every block that is not freed. */
    var heads: map<nat, Pointer>
    /** The blocks not freed, oldest first. */
    ghost var blocks: seq<Block>

    ghost predicate Valid()
      reads this
    {
      Linked(base, heads, blocks)
    }

    ghost function Value(): Pool
      reads this
    {
      Pool(remaining, loc, usedMemory, wastedMemory, blocks)
    }

    constructor ()
      ensures Valid() && Value().(loc := 0) == Pool(0, 0, 0, 0, [])
    {
      remaining, base, usedMemory, wastedMemory := 0, Null, 0, 0;
      heads, blocks := map[], [];
      loc := *;
    }

    /** One request; the system never gives a block that it gave before and that is not freed. */
    method Alloc(req: nat, sys: System) returns (ptr: Pointer)
      requires Valid() && (sys.Gives? ==> sys.addr !in heads)
      modifies this
      ensures Valid() && (Value(), ptr) == Malloc(old(Value()), req, sys)
    {
      hide Linked, RoundUp, BlockSizeFor;
      var size := RoundUp(req);
      if size > remaining {
        wastedMemory := wastedMemory + remaining;
        var blocksize := BlockSizeFor(size);
        match sys {
          case Refuses => return Null;
          case Gives(m) =>
            NewLink(base, heads, blocks, Block(m, blocksize));
            heads := heads[m := base];
            base := At(m);
            blocks := blocks + [Block(m, blocksize)];
            remaining := blocksize - HEADER;
            loc := m + HEADER;
        }
      }
      ptr := At(loc);
      loc := loc + size;
      remaining := remaining - size;
      usedMemory := usedMemory + size;
    }

    /** Follows the chain from the newest block to the oldest. Every word is read while its block is
        still there, every block is freed once, and none is left. */
    method FreeAll() returns (freed: seq<nat>)
      requires Valid()
      modifies this
      ensures Valid() && heads == map[] && Value().(loc := 0) == Pool(0, 0, 0, 0, [])
      ensures |freed| == |old(blocks)|
      ensures forall i :: 0 <= i < |freed| ==> freed[i] == old(blocks)[|freed| - 1 - i].addr
    {
      hide Chain, DistinctBlocks, Addresses;
      freed := [];
      ghost var all := blocks;
      while base != Null
        invariant Valid() && |blocks| + |freed| == |all| && blocks == all[..|blocks|]
        invariant forall i :: 0 <= i < |freed| ==> freed[i] == all[|all| - 1 - i].addr
        decreases |blocks|
      {
        OldLink(base, heads, blocks);
        var prev := heads[base.addr];
        freed := freed + [base.addr];
        heads := heads - {base.addr};
        base := prev;
        blocks := blocks[..|blocks| - 1];
      }
      NoLink(heads, blocks);
      remaining, usedMemory, wastedMemory := 0, 0, 0;
    }
  }

  lemma NoLink(heads: map<nat, Pointer>, blocks: seq<Block>)
    requires Linked(Null, heads, blocks)
    ensures blocks == [] && heads == map[]
  {
    assert heads.Keys == {};
  }

  lemma NewLink(base: Pointer, heads: map<nat, Pointer>, blocks: seq<Block>, b: Block)
    requires Linked(base, heads, blocks) && b.addr !in heads
    ensures Linked(At(b.addr), heads[b.addr := base], blocks + [b])
  {
    hide Addresses;
    MoreAddresses(blocks, b);
    ChainFrame(base, heads, heads[b.addr := base], blocks);
    assert (blocks + [b])[..|blocks|] == blocks;
  }

  lemma MoreAddresses(blocks: seq<Block>, b: Block)
    ensures Addresses(blocks + [b]) == Addresses(blocks) + {b.addr}
    ensures forall i :: 0 <= i < |blocks| ==> blocks[i].addr in Addresses(blocks)
  {
    var blocks' := blocks + [b];
    assert blocks'[|blocks|] == b;
    assert forall i :: 0 <= i < |blocks| ==> blocks'[i] == blocks[i];
  }

  lemma OldLink(base: Pointer, heads: map<nat, Pointer>, blocks: seq<Block>)
    requires Linked(base, heads, blocks) && base.At?
    ensures blocks != [] && base.addr == blocks[|blocks| - 1].addr && base.addr in heads
    ensures Linked(heads[base.addr], heads - {base.addr}, blocks[..|blocks| - 1])
  {
    var blocks' := blocks[..|blocks| - 1];
    assert forall i :: 0 <= i < |blocks'| ==> blocks'[i] == blocks[i] && blocks[i].addr != base.addr;
    ChainFrame(heads[base.addr], heads, heads - {base.addr}, blocks');
    FewerAddresses(blocks);
  }

  lemma FewerAddresses(blocks: seq<Block>)
    requires blocks != [] && DistinctBlocks(blocks)
    ensures Addresses(blocks[..|blocks| - 1]) == Addresses(blocks) - {blocks[|blocks| - 1].addr}
  {
    var blocks' := blocks[..|blocks| - 1];
    assert forall i :: 0 <= i < |blocks'| ==> blocks'[i] == blocks[i];
  }

  // ---------- whole runs

  datatype Request = Request(req: nat, sys: System)

  datatype Chunk = Chunk(addr: nat, size: nat)

  /** The pool after a run from an empty pool whose loc is still unset, and the chunks returned. */
  function Run(junk: nat, rs: seq<Request>): (Pool, seq<Chunk>) {
    if rs == [] then (Pool(0, junk, 0, 0, []), []) else
    var (p, chunks) := Run(junk, rs[..|rs| - 1]);
    var (q, ptr) := Malloc(p, rs[|rs| - 1].req, rs[|rs| - 1].sys);
    (q, Recorded(chunks, ptr, RoundUp(rs[|rs| - 1].req)))
  }

  function TotalSize(blocks: seq<Block>): nat {
    if blocks == [] then 0 else TotalSize(blocks[..|blocks| - 1]) + blocks[|blocks| - 1].size
  }

  predicate Apart(addr: nat, size: nat, addr': nat, size': nat) {
    addr + size <= addr' || addr' + size' <= addr
  }

  /** The system never hands out memory that overlaps a block it gave before. */
  ghost predicate SystemOk(junk: nat, rs: seq<Request>)
    decreases |rs|
  {
    rs == [] ||
    var p := Run(junk, rs[..|rs| - 1]).0;
    var r := rs[|rs| - 1];
    && SystemOk(junk, rs[..|rs| - 1])
    && (r.sys.Gives? ==> forall i :: 0 <= i < |p.blocks| ==>
          Apart(p.blocks[i].addr, p.blocks[i].size, r.sys.addr, BlockSizeFor(RoundUp(r.req))))
  }

  ghost predicate Inside(c: Chunk, b: Block) {
    b.addr + HEADER <= c.addr && c.addr + c.size <= b.addr + b.size
  }

  /** The chunk lies in some block, whole words behind its header; in the newest block it ends before loc. */
  ghost predicate Housed(p: Pool, c: Chunk) {
    exists i :: 0 <= i < |p.blocks| && Inside(c, p.blocks[i]) && WordsBehind(p.blocks[i], c.addr) &&
                (i == |p.blocks| - 1 ==> c.addr + c.size <= p.loc)
  }

  /** The address lies a multiple of the word size behind the block's header. */
  ghost predicate WordsBehind(b: Block, addr: nat) {
    addr >= b.addr + HEADER && (addr - b.addr - HEADER) % WORDSIZE == 0
  }

  ghost predicate BlocksApart(blocks: seq<Block>) {
    forall i, j :: 0 <= i < j < |blocks| ==> Apart(blocks[i].addr, blocks[i].size, blocks[j].addr, blocks[j].size)
  }

  /** loc and remaining describe the end of the newest block. */
  ghost predicate LocOk(junk: nat, p: Pool) {
    if p.blocks == [] then p.remaining == 0 && p.loc == junk else
    var b := p.blocks[|p.blocks| - 1];
    WordsBehind(b, p.loc) && p.loc + p.remaining == b.addr + b.size
  }

  /** Some request up to the k-th served one was not empty, so that there was a block. */
  ghost predicate Placed(chunks: seq<Chunk>, k: nat) {
    exists j :: 0 <= j <= k && j < |chunks| && chunks[j].size > 0
  }

  ghost predicate NoneYet(chunks: seq<Chunk>) {
    forall j :: 0 <= j < |chunks| ==> chunks[j].size == 0
  }

  /** Placed chunks lie in their blocks; those before are empty and at the unset location. */
  ghost predicate AllHoused(junk: nat, p: Pool, chunks: seq<Chunk>) {
    && (forall k :: 0 <= k < |chunks| && Placed(chunks, k) ==> Housed(p, chunks[k]))
    && (forall k :: 0 <= k < |chunks| && !Placed(chunks, k) ==> chunks[k] == Chunk(junk, 0))
  }

  ghost predicate ChunksHoused(junk: nat, p: Pool, chunks: seq<Chunk>) {
    AllHoused(junk, p, chunks) && (p.blocks == [] <==> NoneYet(chunks))
  }

  ghost predicate ChunksApart(chunks: seq<Chunk>) {
    forall j, k :: 0 <= j < k < |chunks| && Placed(chunks, j) ==>
      Apart(chunks[j].addr, chunks[j].size, chunks[k].addr, chunks[k].size)
  }

  /** Bytes booked minus bytes obtained. */
  function Imbalance(p: Pool): int {
    p.used + p.wasted + p.remaining + HEADER * |p.blocks| - TotalSize(p.blocks)
  }

  /** The request needs a new block, and the system refuses it. */
  predicate Refused(p: Pool, r: Request) {
    r.sys.Refuses? && RoundUp(r.req) > p.remaining
  }

  /** The bytes that were left over whenever the system refused: they are booked as wasted and yet kept. */
  function BookedTwice(junk: nat, rs: seq<Request>): nat {
    if rs == [] then 0 else
    var p := Run(junk, rs[..|rs| - 1]).0;
    BookedTwice(junk, rs[..|rs| - 1]) + if Refused(p, rs[|rs| - 1]) then p.remaining else 0
  }

  lemma HousedStays(p: Pool, q: Pool, c: Chunk)
    requires Housed(p, c) && p.blocks <= q.blocks
    requires p.blocks == q.blocks ==> p.loc <= q.loc
    ensures Housed(q, c)
  {
    var i :| 0 <= i < |p.blocks| && Inside(c, p.blocks[i]) && WordsBehind(p.blocks[i], c.addr) &&
             (i == |p.blocks| - 1 ==> c.addr + c.size <= p.loc);
    assert Inside(c, q.blocks[i]);
  }

  lemma PlacedStays(chunks: seq<Chunk>, d: Chunk)
    ensures forall k :: 0 <= k < |chunks| ==> (Placed(chunks + [d], k) <==> Placed(chunks, k))
    ensures Placed(chunks + [d], |chunks|) <==> !NoneYet(chunks + [d])
    ensures NoneYet(chunks + [d]) <==> NoneYet(chunks) && d.size == 0
  {
    var more := chunks + [d];
    assert more[|chunks|] == d;
    assert forall j :: 0 <= j < |chunks| ==> more[j] == chunks[j];
  }

  /** A chunk cut off at loc is apart from every chunk handed out before. */
  lemma NewChunkApart(p: Pool, c: Chunk, d: Chunk)
    requires BlocksApart(p.blocks) && Housed(p, c)
    requires p.blocks != [] && d.addr == p.loc && Inside(d, p.blocks[|p.blocks| - 1])
    ensures Apart(c.addr, c.size, d.addr, d.size)
  {
  }

  /** The new chunk itself, at whole words behind the header. */
  lemma NewHoused(junk: nat, p: Pool, size: nat)
    requires LocOk(junk, p) && size <= p.remaining && size % WORDSIZE == 0
    ensures LocOk(junk, Cut(p, size))
    ensures var d := Chunk(p.loc, size);
      if p.blocks == [] then d == Chunk(junk, 0) else Inside(d, p.blocks[|p.blocks| - 1]) && Housed(Cut(p, size), d)
  {
    if p.blocks != [] {
      var q, d := Cut(p, size), Chunk(p.loc, size);
      assert (q.loc - p.loc) % WORDSIZE == 0;
      assert Inside(d, q.blocks[|q.blocks| - 1]);
    }
  }

  /** Cutting a chunk off the newest block keeps all of them housed. */
  lemma CutOff(junk: nat, p: Pool, chunks: seq<Chunk>, size: nat)
    requires LocOk(junk, p) && size <= p.remaining && size % WORDSIZE == 0 && AllHoused(junk, p, chunks)
    requires if p.blocks == [] then NoneYet(chunks) else size > 0 || !NoneYet(chunks)
    ensures LocOk(junk, Cut(p, size)) && ChunksHoused(junk, Cut(p, size), chunks + [Chunk(p.loc, size)])
  {
    hide Placed, Housed, NoneYet, LocOk, Inside;
    var q, d := Cut(p, size), Chunk(p.loc, size);
    PlacedStays(chunks, d);
    NewHoused(junk, p, size);
    forall k | 0 <= k < |chunks| && Placed(chunks, k) ensures Housed(q, chunks[k]) {
      HousedStays(p, q, chunks[k]);
    }
  }

  /** The new chunk is behind all others. */
  lemma CutApart(junk: nat, p: Pool, chunks: seq<Chunk>, size: nat)
    requires LocOk(junk, p) && size <= p.remaining && size % WORDSIZE == 0 && AllHoused(junk, p, chunks)
    requires p.blocks == [] ==> NoneYet(chunks)
    requires BlocksApart(p.blocks) && ChunksApart(chunks)
    ensures ChunksApart(chunks + [Chunk(p.loc, size)])
  {
    hide Housed, Apart, LocOk, Inside, BlocksApart;
    var d := Chunk(p.loc, size);
    PlacedStays(chunks, d);
    NewHoused(junk, p, size);
    forall k | 0 <= k < |chunks| && Placed(chunks, k) ensures Apart(chunks[k].addr, chunks[k].size, d.addr, d.size) {
      NewChunkApart(p, chunks[k], d);
    }
  }

  /** A new block keeps all chunks housed. */
  lemma FreshBlock(junk: nat, p: Pool, chunks: seq<Chunk>, b: Block)
    requires AllHoused(junk, p, chunks) && HEADER <= b.size
    ensures AllHoused(junk, Enter(GiveUp(p), b), chunks) && LocOk(junk, Enter(GiveUp(p), b))
  {
    hide Housed, Placed;
    var q := Enter(GiveUp(p), b);
    forall k | 0 <= k < |chunks| && Placed(chunks, k) ensures Housed(q, chunks[k]) {
      HousedStays(p, q, chunks[k]);
    }
  }

  function Recorded(chunks: seq<Chunk>, ptr: Pointer, size: nat): seq<Chunk> {
    match ptr
    case Null => chunks
    case At(a) => chunks + [Chunk(a, size)]
  }

  lemma StepHoused(junk: nat, p: Pool, chunks: seq<Chunk>, req: nat, sys: System)
    requires LocOk(junk, p) && ChunksHoused(junk, p, chunks)
    ensures var (q, ptr) := Malloc(p, req, sys);
      var chunks' := Recorded(chunks, ptr, RoundUp(req));
      && LocOk(junk, q) && ChunksHoused(junk, q, chunks')
      && (BlocksApart(q.blocks) && ChunksApart(chunks) ==> ChunksApart(chunks'))
  {
    hide Apart, RoundUp, BlockSizeFor, Housed, Placed, NoneYet, BlocksApart, ChunksApart, AllHoused, LocOk;
    var size := RoundUp(req);
    if size <= p.remaining {
      CutOff(junk, p, chunks, size);
      if BlocksApart(p.blocks) && ChunksApart(chunks) {
        CutApart(junk, p, chunks, size);
      }
    } else if sys.Gives? {
      var b := Block(sys.addr, BlockSizeFor(size));
      var q := Enter(GiveUp(p), b);
      FreshBlock(junk, p, chunks, b);
      CutOff(junk, q, chunks, size);
      if BlocksApart(q.blocks) && ChunksApart(chunks) {
        CutApart(junk, q, chunks, size);
      }
    } else {
      GivenUp(junk, p, chunks);
    }
  }

  /** Booking bytes as wasted moves nothing. */
  lemma GivenUp(junk: nat, p: Pool, chunks: seq<Chunk>)
    requires LocOk(junk, p) && AllHoused(junk, p, chunks)
    ensures LocOk(junk, GiveUp(p)) && AllHoused(junk, GiveUp(p), chunks)
  {
    hide Housed, Placed;
    forall k | 0 <= k < |chunks| && Placed(chunks, k) ensures Housed(GiveUp(p), chunks[k]) {
      HousedStays(p, GiveUp(p), chunks[k]);
    }
  }

  lemma StepApart(p: Pool, req: nat, sys: System)
    requires BlocksApart(p.blocks)
    requires sys.Gives? ==> forall i :: 0 <= i < |p.blocks| ==>
      Apart(p.blocks[i].addr, p.blocks[i].size, sys.addr, BlockSizeFor(RoundUp(req)))
    ensures BlocksApart(Malloc(p, req, sys).0.blocks)
  {
    hide Apart, RoundUp, BlockSizeFor;
  }

  /** Over any run: all chunks lie in their blocks, whole words behind the header. An empty chunk is
      returned at the unset location as long as nothing else has been asked for. */
  lemma {:induction false} RunHoused(junk: nat, rs: seq<Request>)
    ensures LocOk(junk, Run(junk, rs).0) && ChunksHoused(junk, Run(junk, rs).0, Run(junk, rs).1)
  {
    if rs == [] {
    } else {
      var (p, chunks) := Run(junk, rs[..|rs| - 1]);
      RunHoused(junk, rs[..|rs| - 1]);
      StepHoused(junk, p, chunks, rs[|rs| - 1].req, rs[|rs| - 1].sys);
    }
  }

  /** If the system's blocks are apart, so are the chunks. */
  lemma {:induction false} RunSafe(junk: nat, rs: seq<Request>)
    requires SystemOk(junk, rs)
    ensures BlocksApart(Run(junk, rs).0.blocks) && ChunksApart(Run(junk, rs).1)
    ensures ChunksHoused(junk, Run(junk, rs).0, Run(junk, rs).1)
  {
    RunHoused(junk, rs);
    if rs == [] {
    } else {
      var (p, chunks) := Run(junk, rs[..|rs| - 1]);
      RunSafe(junk, rs[..|rs| - 1]);
      RunHoused(junk, rs[..|rs| - 1]);
      StepHoused(junk, p, chunks, rs[|rs| - 1].req, rs[|rs| - 1].sys);
      StepApart(p, rs[|rs| - 1].req, rs[|rs| - 1].sys);
    }
  }

  /** Conservation, exactly: the books are off by what was left over at the refusals. */
  lemma {:induction false} RunBalance(junk: nat, rs: seq<Request>)
    ensures Imbalance(Run(junk, rs).0) == BookedTwice(junk, rs)
  {
    if rs == [] {
    } else {
      var p := Run(junk, rs[..|rs| - 1]).0;
      var r := rs[|rs| - 1];
      RunBalance(junk, rs[..|rs| - 1]);
      var q := Malloc(p, r.req, r.sys).0;
      if q.blocks != p.blocks {
        assert q.blocks[..|q.blocks| - 1] == p.blocks;
      }
    }
  }

  /** Nothing is booked twice if and only if every refusal found the newest block used up. */
  lemma {:induction false} BookedOnce(junk: nat, rs: seq<Request>)
    ensures BookedTwice(junk, rs) == 0 <==>
      forall i :: 0 <= i < |rs| && Refused(Run(junk, rs[..i]).0, rs[i]) ==> Run(junk, rs[..i]).0.remaining == 0
  {
    hide Run, Refused;
    if rs == [] {
    } else {
      var front := rs[..|rs| - 1];
      BookedOnce(junk, front);
      assert forall i :: 0 <= i < |front| ==> front[..i] == rs[..i] && front[i] == rs[i];
    }
  }

  lemma BalanceCondition(junk: nat, rs: seq<Request>)
    ensures Imbalance(Run(junk, rs).0) == 0 <==>
      forall i :: 0 <= i < |rs| && Refused(Run(junk, rs[..i]).0, rs[i]) ==> Run(junk, rs[..i]).0.remaining == 0
  {
    RunBalance(junk, rs);
    BookedOnce(junk, rs);
  }

  /** If the system never refuses, used + wasted + remaining + headers is what was obtained. */
  lemma RunConserves(junk: nat, rs: seq<Request>)
    requires forall i :: 0 <= i < |rs| ==> rs[i].sys.Gives?
    ensures Imbalance(Run(junk, rs).0) == 0 && |Run(junk, rs).1| == |rs|
  {
    RunBalance(junk, rs);
    NothingTwice(junk, rs);
  }

  lemma {:induction false} NothingTwice(junk: nat, rs: seq<Request>)
    requires forall i :: 0 <= i < |rs| ==> rs[i].sys.Gives?
    ensures BookedTwice(junk, rs) == 0 && |Run(junk, rs).1| == |rs|
  {
    if rs == [] {
    } else {
      NothingTwice(junk, rs[..|rs| - 1]);
    }
  }

  /** A refusal with bytes left over does break the books: 16 bytes, then 9000 that are refused. */
  lemma RefusalUnbalances()
    ensures var p := Malloc(Pool(0, 0, 0, 0, []), 16, Gives(4096)).0;
      Imbalance(p) == 0 && Imbalance(Malloc(p, 9000, Refuses).0) == 8168
  {
    assert RoundUp(16) == 16 && RoundUp(9000) == 9008;
    var p := Malloc(Pool(0, 0, 0, 0, []), 16, Gives(4096)).0;
    assert p.blocks == [Block(4096, 8192)] && p.remaining == 8168 && p.used == 16 && p.wasted == 0;
    assert p.blocks[..0] == [];
    assert TotalSize(p.blocks) == 8192;
  }

  function TotalChunks(chunks: seq<Chunk>): nat {
    if chunks == [] then 0 else TotalChunks(chunks[..|chunks| - 1]) + chunks[|chunks| - 1].size
  }

  /** The counter of used bytes is the sum of the sizes of all chunks returned. */
  lemma {:induction false} UsedIsReturned(junk: nat, rs: seq<Request>)
    ensures Run(junk, rs).0.used == TotalChunks(Run(junk, rs).1)
  {
    hide RoundUp, BlockSizeFor;
    if rs == [] {
    } else {
      var front, r := rs[..|rs| - 1], rs[|rs| - 1];
      UsedIsReturned(junk, front);
      var (p, chunks) := Run(junk, front);
      var (q, ptr) := Malloc(p, r.req, r.sys);
      if ptr.At? {
        assert (chunks + [Chunk(ptr.addr, RoundUp(r.req))])[..|chunks|] == chunks;
      }
    }
  }

  // ---------- alignment

  /** A placed chunk is aligned to words if and only if the block it lies in starts 8 bytes past a word
      boundary, whatever the comment on word boundaries says. */
  lemma ChunkAligned(junk: nat, rs: seq<Request>, k: nat)
    requires SystemOk(junk, rs) && k < |Run(junk, rs).1| && Placed(Run(junk, rs).1, k)
    ensures var (p, chunks) := Run(junk, rs);
      && (exists i :: 0 <= i < |p.blocks| && Inside(chunks[k], p.blocks[i]))
      && forall i :: 0 <= i < |p.blocks| && Inside(chunks[k], p.blocks[i]) ==>
           (chunks[k].addr % WORDSIZE == 0 <==> p.blocks[i].addr % WORDSIZE == WORDSIZE - HEADER)
  {
    var (p, chunks) := Run(junk, rs);
    RunSafe(junk, rs);
    var c := chunks[k];
    var h :| 0 <= h < |p.blocks| && Inside(c, p.blocks[h]) && WordsBehind(p.blocks[h], c.addr);
    forall i | 0 <= i < |p.blocks| && Inside(c, p.blocks[i])
      ensures c.addr % WORDSIZE == 0 <==> p.blocks[i].addr % WORDSIZE == WORDSIZE - HEADER
    {
      SameBlock(p.blocks, c, h, i);
      AlignedBehind(p.blocks[h], c.addr);
    }
  }

  lemma SameBlock(blocks: seq<Block>, c: Chunk, h: nat, i: nat)
    requires BlocksApart(blocks) && h < |blocks| && i < |blocks|
    requires Inside(c, blocks[h]) && Inside(c, blocks[i])
    ensures h == i
  {
  }

  lemma AlignedBehind(b: Block, addr: nat)
    requires WordsBehind(b, addr)
    ensures addr % WORDSIZE == 0 <==> b.addr % WORDSIZE == WORDSIZE - HEADER
  {
  }

  /** The block was obtained for some request: 8192 bytes, or 8 in front of the chunk and 15 behind it. */
  ghost predicate ObtainedFor(b: Block, r: Request) {
    r.sys == Gives(b.addr) && b.size == if RoundUp(r.req) <= 8169 then 8192 else 8 + RoundUp(r.req) + 15
  }

  /** Every block of a run has the address that the system gave for some request, and its size. */
  lemma {:induction false} BlocksGiven(junk: nat, rs: seq<Request>, b: Block)
    requires b in Run(junk, rs).0.blocks
    ensures exists i :: 0 <= i < |rs| && ObtainedFor(b, rs[i])
  {
    hide RoundUp;
    var r := rs[|rs| - 1];
    var front := rs[..|rs| - 1];
    if b in Run(junk, front).0.blocks {
      BlocksGiven(junk, front, b);
      var i :| 0 <= i < |front| && ObtainedFor(b, front[i]);
      assert rs[i] == front[i];
    } else {
      BlockSizes(RoundUp(r.req));
      assert ObtainedFor(b, r);
    }
  }

  /** So with blocks on word boundaries, which the usual systems give, no chunk of a run is aligned. */
  lemma NeverWordAligned(junk: nat, rs: seq<Request>)
    requires forall i :: 0 <= i < |rs| && rs[i].sys.Gives? ==> rs[i].sys.addr % WORDSIZE == 0
    ensures var (p, chunks) := Run(junk, rs);
      && (p.blocks != [] ==> p.loc % WORDSIZE == HEADER)
      && forall k :: 0 <= k < |chunks| && Placed(chunks, k) ==> chunks[k].addr % WORDSIZE == HEADER
  {
    hide Placed, Run;
    RunHoused(junk, rs);
    var (p, chunks) := Run(junk, rs);
    if p.blocks != [] {
      BlocksGiven(junk, rs, p.blocks[|p.blocks| - 1]);
      NotAligned(p.blocks[|p.blocks| - 1], p.loc);
    }
    forall k | 0 <= k < |chunks| && Placed(chunks, k) ensures chunks[k].addr % WORDSIZE == HEADER {
      var h :| 0 <= h < |p.blocks| && Inside(chunks[k], p.blocks[h]) && WordsBehind(p.blocks[h], chunks[k].addr);
      BlocksGiven(junk, rs, p.blocks[h]);
      NotAligned(p.blocks[h], chunks[k].addr);
    }
  }

  lemma NotAligned(b: Block, addr: nat)
    requires WordsBehind(b, addr) && b.addr % WORDSIZE == 0
    ensures addr % WORDSIZE == HEADER
  {
  }

  /** One request for 16 bytes: aligned in a block at 8, not aligned in a block at 16. */
  lemma AlignmentWitness(junk: nat)
    ensures Malloc(Pool(0, junk, 0, 0, []), 16, Gives(8)).1 == At(16)
    ensures Malloc(Pool(0, junk, 0, 0, []), 16, Gives(16)).1 == At(24)
  {
  }
}

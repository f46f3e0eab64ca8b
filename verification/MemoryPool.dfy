/** The memory pool: one free list per size class, and the system heap for what is larger. */
module MemoryPool {
  import opened Collections

  const MIN_SIZE: nat := 8
  const MAX_SIZE: nat := 1024

  // ---------- size classes ----------

  function Pow2(k: nat): (r: nat)
    ensures r >= 1
  {
    if k == 0 then 1 else 2 * Pow2(k - 1)
  }

  function ClassSize(i: nat): (r: nat)
    ensures r >= MIN_SIZE
  {
    MIN_SIZE * Pow2(i)
  }

  lemma {:induction false} ClassSizeGrows(i: nat, j: nat)
    requires i < j
    ensures 2 * ClassSize(i) <= ClassSize(j)
    decreases j
  {
    if i < j - 1 {
      ClassSizeGrows(i, j - 1);
    }
  }

  /** The first loop of the constructor: classes from i on that do not exceed the maximum. */
  function ClassesFrom(i: nat, max: nat): nat
    decreases max + 1 - ClassSize(i)
  {
    if ClassSize(i) <= max then 1 + ClassesFrom(i + 1, max) else 0
  }

  function ClassCount(max: nat): nat { ClassesFrom(0, max) }

  lemma {:induction false} CountFrom(i: nat, max: nat)
    ensures ClassSize(i + ClassesFrom(i, max)) > max
    ensures forall j :: i <= j < i + ClassesFrom(i, max) ==> ClassSize(j) <= max
    decreases max + 1 - ClassSize(i)
  {
    if ClassSize(i) <= max {
      CountFrom(i + 1, max);
    }
  }

  /** Class i exists exactly when its size does not exceed the maximum. */
  lemma ClassExists(i: nat, max: nat)
    ensures i < ClassCount(max) <==> ClassSize(i) <= max
  {
    var n := ClassCount(max);
    CountFrom(0, max);
    if i > n {
      ClassSizeGrows(n, i);
    }
  }

  /** The search of `New`: the first class from i on that holds a request, or the number of classes. */
  function ClassFor(request: nat, i: nat, max: nat): nat
    decreases max + 1 - ClassSize(i)
  {
    if ClassSize(i) > max || ClassSize(i) >= request then i else ClassFor(request, i + 1, max)
  }

  lemma {:induction false} ClassForFrom(request: nat, i: nat, max: nat)
    ensures i <= ClassFor(request, i, max)
    ensures forall j :: i <= j < ClassFor(request, i, max) ==> ClassSize(j) < request && ClassSize(j) <= max
    ensures ClassSize(ClassFor(request, i, max)) > max || ClassSize(ClassFor(request, i, max)) >= request
    decreases max + 1 - ClassSize(i)
  {
    if !(ClassSize(i) > max || ClassSize(i) >= request) {
      ClassForFrom(request, i + 1, max);
    }
  }

  /** The class found fits the request and wastes less than half of its block. */
  lemma ClassFits(request: nat, max: nat)
    requires ClassFor(request, 0, max) < ClassCount(max)
    ensures var size := ClassSize(ClassFor(request, 0, max));
      request <= size <= max && (request > MIN_SIZE ==> size < 2 * request)
  {
    var k := ClassFor(request, 0, max);
    ClassForFrom(request, 0, max);
    ClassExists(k, max);
    if k > 0 {
      assert ClassSize(k - 1) < request && ClassSize(k) == 2 * ClassSize(k - 1);
    } else {
      assert ClassSize(0) == MIN_SIZE;
    }
  }

  lemma FirstClass()
    ensures ClassSize(0) == MIN_SIZE
  {
  }

  lemma NextClass(i: nat, max: nat)
    ensures ClassSize(i + 1) == 2 * ClassSize(i)
    ensures ClassSize(i) <= max ==> i + 1 <= ClassCount(max)
  {
    ClassExists(i, max);
  }

  /** The maximum is itself the size of a class. */
  ghost predicate IsClassSize(max: nat) {
    exists k: nat :: max == ClassSize(k)
  }

  ghost predicate AllInRange(max: nat) {
    forall request: nat :: request <= max ==> ClassFor(request, 0, max) < ClassCount(max)
  }

  /** The index that `New` computes is in range for every request up to the maximum exactly when the maximum
      is a class size. */
  lemma IndexInRangeExactly(max: nat)
    ensures IsClassSize(max) <==> AllInRange(max)
  {
    if IsClassSize(max) {
      forall request: nat | request <= max ensures ClassFor(request, 0, max) < ClassCount(max) {
        IndexInRange(request, max);
      }
    }
    if AllInRange(max) {
      ClassFits(max, max);
      assert max == ClassSize(ClassFor(max, 0, max));
    }
  }

  /** A pool of this maximum has a class that holds the request. */
  predicate Served(request: nat, max: nat) {
    ClassCount(max) > 0 && request <= ClassSize(ClassCount(max) - 1)
  }

  /** For one request: the index is in range exactly when the largest class holds it. */
  lemma IndexInRangeFor(request: nat, max: nat)
    ensures ClassFor(request, 0, max) <= ClassCount(max)
    ensures ClassFor(request, 0, max) < ClassCount(max) <==> Served(request, max)
  {
    var j, n := ClassFor(request, 0, max), ClassCount(max);
    ClassForFrom(request, 0, max);
    ClassExists(j, max);
    ClassExists(n, max);
    if 0 < n {
      ClassExists(n - 1, max);
      assert j < n - 1 ==> ClassSize(j) <= ClassSize(n - 1) by {
        if j < n - 1 { ClassSizeGrows(j, n - 1); }
      }
    }
  }

  lemma IndexInRange(request: nat, max: nat)
    requires IsClassSize(max) && request <= max
    ensures ClassFor(request, 0, max) < ClassCount(max)
  {
    var k: nat :| max == ClassSize(k);
    IndexInRangeFor(request, max);
    ClassExists(k, max);
    ClassExists(k + 1, max);
    ClassSizeGrows(k, k + 1);
  }

  /** A maximum of 100 is not: a request of 70 runs past the last class. */
  lemma IndexOutOfRange()
    ensures ClassFor(70, 0, 100) == ClassCount(100) == 4
  {
    assert Pow2(1) == 2 && Pow2(2) == 4 && Pow2(3) == 8 && Pow2(4) == 16;
    assert ClassSize(0) == 8 && ClassSize(1) == 16 && ClassSize(2) == 32 && ClassSize(3) == 64 && ClassSize(4) == 128;
    assert ClassFor(70, 3, 100) == 4 && ClassFor(70, 2, 100) == 4 && ClassFor(70, 1, 100) == 4;
    assert ClassesFrom(4, 100) == 0 && ClassesFrom(3, 100) == 1 && ClassesFrom(2, 100) == 2 && ClassesFrom(1, 100) == 3;
  }

  /** What the constructor keeps of the maximum it is given. */
  function Clip(max: nat): nat {
    if max > MAX_SIZE then MAX_SIZE else max
  }

  /** So a pool serves every request exactly if it was asked for at least MAX_SIZE, or for a class size. */
  lemma ServesAllExactly(max: nat)
    ensures AllInRange(Clip(max)) <==> max >= 1024 || IsClassSize(max)
  {
    IndexInRangeExactly(Clip(max));
    if max >= MAX_SIZE {
      assert Pow2(2) == 4 && Pow2(4) == 4 * Pow2(2) && Pow2(6) == 4 * Pow2(4) && Pow2(7) == 2 * Pow2(6);
      assert MAX_SIZE == ClassSize(7);
    }
  }

  // ---------- blocks and chunks ----------

  /** A block: the size stored in front of the data, in front of that the chunk it came from, if any, and of the data
      the word that a free block uses for its link. In the hands of a user that word is the user's. */
  class Block {
    const nSize: nat
    const home: MemoryChunk?
    var next: Block?

    constructor (nSize: nat, home: MemoryChunk?)
      ensures this.nSize == nSize && this.home == home
    {
      this.nSize, this.home, next := nSize, home, null;
    }
  }

  function First(bs: seq<Block>): Block? {
    if bs == [] then null else bs[0]
  }

  /** Each block links to the next one, and the last to none. */
  ghost predicate Chained(bs: seq<Block>)
    reads bs`next
  {
    forall i :: 0 <= i < |bs| ==> bs[i].next == First(bs[i + 1..])
  }

  lemma ChainedTail(bs: seq<Block>)
    requires bs != [] && Chained(bs)
    ensures bs[0].next == First(bs[1..]) && Chained(bs[1..])
  {
    forall i | 0 <= i < |bs| - 1 ensures bs[1..][i].next == First(bs[1..][i + 1..]) {
      assert bs[1..][i + 1..] == bs[i + 2..];
    }
  }

  lemma ChainedCons(b: Block, bs: seq<Block>)
    requires Chained(bs) && b.next == First(bs)
    ensures Chained([b] + bs)
  {
    forall i | 0 <= i <= |bs| ensures ([b] + bs)[i].next == First(([b] + bs)[i + 1..]) {
      assert ([b] + bs)[i + 1..] == bs[i..];
    }
  }

  class MemoryChunk {
    const size: nat
    var head: Block?
    var blockCount: nat
    ghost var free: seq<Block>
    ghost var owned: set<Block>

    /** Every block made here says so; the free ones are linked from the head on, each once; the count is right. */
    ghost predicate Valid()
      reads this, free`next
    {
      && Distinct(free) && (forall b :: b in free ==> b in owned) && head == First(free) && Chained(free)
      && (forall b :: b in owned ==> b.home == this && b.nSize == size)
      && blockCount == |owned|
    }

    /** The blocks in the hands of users. */
    ghost function Out(): set<Block>
      reads this
    {
      owned - Listed(free)
    }

    constructor (size: nat, blocks: nat)
      ensures Valid() && this.size == size && blockCount == |free| == blocks && Out() == {}
      ensures fresh(Listed(free))
    {
      this.size := size;
      head, blockCount, free, owned := null, 0, [], {};
      new;
      hide Chained;
      assert Chained([]);
      var i := 0;
      while i < blocks
        invariant i <= blocks && Valid() && blockCount == |free| == i && owned == Listed(free) && fresh(owned)
      {
        var b := CreateBlock();
        Push(b);
        i := i + 1;
      }
    }

    /** Links a block in front of the free ones. */
    method Push(b: Block)
      requires Valid() && b in Out()
      modifies this`head, this`free, b`next
      ensures Valid() && free == [b] + old(free)
    {
      hide Chained, First;
      b.next := head;
      assert b !in free;
      ChainedCons(b, free);
      head, free := b, [b] + free;
      FirstOf(b, old(free));
    }

    method CreateBlock() returns (b: Block)
      requires Valid()
      modifies this`blockCount, this`owned
      ensures Valid() && fresh(b) && b.home == this && b.nSize == size
      ensures owned == old(owned) + {b} && blockCount == old(blockCount) + 1
    {
      hide Chained, First;
      b := new Block(size, this);
      blockCount := blockCount + 1;
      owned := owned + {b};
    }

    /** Takes the first free block, or makes one. */
    method Malloc() returns (b: Block)
      requires Valid()
      modifies this
      ensures Valid() && b.home == this && b.nSize == size
      ensures b !in old(Out()) && Out() == old(Out()) + {b}
      ensures if old(free) != [] then free == old(free)[1..] && owned == old(owned) && b == old(free)[0]
              else free == [] && fresh(b) && blockCount == old(blockCount) + 1
    {
      hide Chained;
      if head != null {
        b := head;
        ChainedTail(free);
        head := b.next;
        free := free[1..];
      } else {
        b := CreateBlock();
      }
    }

    /** Puts a block back in front. */
    method Free(b: Block)
      requires Valid() && b in Out()
      modifies this`head, this`free, b`next
      ensures Valid() && free == [b] + old(free) && Out() == old(Out()) - {b} && owned == old(owned)
    {
      hide Chained, First;
      Push(b);
    }

    /** Blocks are never lost: free and handed out make up the count. */
    lemma Conserved()
      requires Valid()
      ensures |free| + |Out()| == blockCount
    {
      ListedSize(free);
      assert owned == Listed(free) + Out();
    }

    /** The destructor: frees the list, counting; its assertion holds exactly when nothing is handed out. */
    method Destroy() returns (freed: nat)
      requires Valid()
      modifies this`head, this`free
      ensures free == [] && head == null
      ensures freed == blockCount <==> old(Out()) == {}
    {
      Conserved();
      freed := 0;
      var block := head;
      while block != null
        invariant block == head == First(free) && Chained(free) && freed + |free| == |old(free)|
        decreases |free|
      {
        ChainedTail(free);
        head, free := block.next, free[1..];
        block := head;
        freed := freed + 1;
      }
    }
  }

  lemma FirstOf(b: Block, bs: seq<Block>)
    ensures First([b] + bs) == b
  {
  }

  // ---------- the pool ----------

  /** The blocks that came from a chunk. */
  ghost function From(live: set<Block>, c: MemoryChunk): set<Block> {
    set b | b in live && b.home == c
  }

  /** One more live block is one more for its own chunk, and nothing for any other. */
  lemma TakenFrom(live: set<Block>, b: Block, chunks: seq<MemoryChunk>)
    ensures b.home != null ==> From(live + {b}, b.home) == From(live, b.home) + {b}
    ensures b.home != null ==> (b in live <==> b in From(live, b.home))
    ensures forall c :: c in chunks && c != b.home ==> From(live + {b}, c) == From(live, c)
  {
  }

  class CMemoryPool {
    const maxSize: nat
    const chunks: seq<MemoryChunk>
    ghost var live: set<Block>
    ghost var blocks: set<Block>

    /** One chunk per class; what a chunk has handed out is what is live and says it came from there. */
    ghost predicate Valid()
      reads this, chunks, blocks`next
    {
      && |chunks| == ClassCount(maxSize) && Distinct(chunks)
      && live <= blocks && (forall i :: 0 <= i < |chunks| ==> Listed(chunks[i].free) <= blocks)
      && (forall i :: 0 <= i < |chunks| ==> chunks[i].Valid() && chunks[i].size == ClassSize(i))
      && (forall b :: b in live ==>
           if b.home == null then b.nSize > maxSize else b.home in chunks && b.nSize <= maxSize)
      && (forall i :: 0 <= i < |chunks| ==> chunks[i].Out() == From(live, chunks[i]))
    }

    constructor (max: nat, chunkBlocks: nat)
      ensures Valid() && maxSize == (if max < 1024 then max else 1024) && live == {} && fresh(blocks)
      ensures fresh(chunks) && forall c :: c in chunks ==> c.blockCount == |c.free| == chunkBlocks
    {
      hide MemoryChunk.Valid, MemoryChunk.Out, ClassCount, ClassSize;
      var list := BuildChunks(Clip(max), chunkBlocks);
      maxSize, chunks, live := Clip(max), list, {};
      blocks := set c, b | c in list && b in Listed(c.free) :: b;
    }

    /** The second loop of the constructor. */
    static method BuildChunks(limit: nat, chunkBlocks: nat) returns (list: seq<MemoryChunk>)
      ensures |list| == ClassCount(limit) && fresh(list) && Distinct(list)
      ensures forall k :: 0 <= k < |list| ==> list[k].Valid() && list[k].size == ClassSize(k) && list[k].Out() == {}
      ensures forall k :: 0 <= k < |list| ==>
        list[k].blockCount == |list[k].free| == chunkBlocks && fresh(Listed(list[k].free))
    {
      hide MemoryChunk.Valid, MemoryChunk.Out, ClassCount, ClassSize;
      list := [];
      var size, i := MIN_SIZE, 0;
      FirstClass();
      while size <= limit
        invariant i == |list| <= ClassCount(limit) && size == ClassSize(i) && fresh(list) && Distinct(list)
        invariant forall k :: 0 <= k < i ==> list[k].Valid() && list[k].size == ClassSize(k) && list[k].Out() == {}
        invariant forall k :: 0 <= k < i ==>
          list[k].blockCount == |list[k].free| == chunkBlocks && fresh(Listed(list[k].free))
        decreases if size <= limit then limit - size + 1 else 0
      {
        NextClass(i, limit);
        var c := new MemoryChunk(size, chunkBlocks);
        list := list + [c];
        size, i := size * 2, i + 1;
      }
      ClassExists(i, limit);
    }

    /** A block for the request: from the class that fits, or from the system heap. It is no live block's
        memory, and every other live block stays as it is. The source runs past its chunks, which null stands for,
        exactly if the request is not above the maximum and the largest class does not hold it. */
    method New(request: nat) returns (b: Block?)
      requires Valid()
      modifies this`live, this`blocks, chunks
      ensures fresh(blocks - old(blocks))
      ensures Valid() && (b == null <==> request <= maxSize && !Served(request, maxSize))
      ensures b == null ==> live == old(live) && forall c :: c in chunks ==> c.free == old(c.free)
      ensures b != null ==> b !in old(live) && live == old(live) + {b}
      ensures b != null && request > maxSize ==> b.home == null && b.nSize == request
      ensures b != null && request <= maxSize ==>
        b.home in chunks && request <= b.nSize <= maxSize && (request > MIN_SIZE ==> b.nSize < 2 * request)
    {
      hide ClassCount, ClassSize, ClassFor, Served;
      if request > maxSize {
        var large := new Block(request, null);
        live, blocks := live + {large}, blocks + {large};
        return large;
      }
      var i := FindClass(request);
      if i == |chunks| {
        return null;
      }
      var block := TakeFrom(i);
      return block;
    }

    /** A block from one of the chunks. */
    method TakeFrom(i: nat) returns (b: Block)
      requires Valid() && i < |chunks| && ClassSize(i) <= maxSize
      modifies this`live, this`blocks, chunks
      ensures fresh(blocks - old(blocks))
      ensures Valid() && b !in old(live) && live == old(live) + {b} && b.home == chunks[i] && b.nSize == ClassSize(i)
    {
      hide MemoryChunk.Valid, MemoryChunk.Out, From, ClassCount, ClassSize;
      ghost var was := live;
      b := chunks[i].Malloc();
      TakenFrom(was, b, chunks);
      live, blocks := live + {b}, blocks + {b};
    }

    method FindClass(request: nat) returns (i: nat)
      requires request <= maxSize && |chunks| == ClassCount(maxSize)
      ensures i <= |chunks| && (i == |chunks| <==> !Served(request, maxSize))
      ensures i < |chunks| ==>
        request <= ClassSize(i) <= maxSize && (request > MIN_SIZE ==> ClassSize(i) < 2 * request)
    {
      i := 0;
      var size := MIN_SIZE;
      while size <= maxSize && size < request
        invariant size == ClassSize(i) && ClassFor(request, i, maxSize) == ClassFor(request, 0, maxSize)
        decreases maxSize + 1 - size
      {
        size, i := size * 2, i + 1;
      }
      IndexInRangeFor(request, maxSize);
      if i < ClassCount(maxSize) {
        ClassFits(request, maxSize);
      }
    }

    /** Returns a live block to where it came from: the size in front of it tells which way. */
    method Delete(b: Block)
      requires Valid() && b in live
      modifies this`live, chunks, b`next
      ensures Valid() && live == old(live) - {b} && blocks == old(blocks)
      ensures b.home != null ==> b.home in chunks && b.home.free == [b] + old(b.home.free)
      ensures forall c :: c in chunks && c != b.home ==> c.free == old(c.free) && c.owned == old(c.owned)
    {
      hide MemoryChunk.Valid, MemoryChunk.Out, From, ClassCount, ClassSize;
      ghost var was := live;
      LiveIsNotFree(b);
      TakenFrom(was - {b}, b, chunks);
      assert was - {b} + {b} == was;
      if b.nSize <= maxSize {
        b.home.Free(b);
      }
      live := live - {b};
    }

    /** A user writes to a block it holds, over the word that would be a free block's link: no free list changes. */
    method Write(b: Block, word: Block?)
      requires Valid() && b in live
      modifies b`next
      ensures Valid() && b.next == word
    {
      hide MemoryChunk.Valid, MemoryChunk.Out, ClassCount, ClassSize;
      LiveIsNotFree(b);
      b.next := word;
    }

    lemma LiveIsNotFree(b: Block)
      requires Valid() && b in live
      ensures b in blocks && forall c :: c in chunks ==> b !in c.free
    {
      hide ClassCount, ClassSize;
      forall c | c in chunks ensures b !in c.free {
        if b.home == c {
          assert b in From(live, c);
        }
      }
    }

    /** With nothing live, every chunk's destructor finds all of its blocks. */
    lemma DestroyIsClean()
      requires Valid() && live == {}
      ensures forall c :: c in chunks ==> c.Valid() && c.Out() == {} && |c.free| == c.blockCount
    {
      forall c | c in chunks ensures c.Valid() && c.Out() == {} && |c.free| == c.blockCount {
        var i :| 0 <= i < |chunks| && chunks[i] == c;
        assert From(live, chunks[i]) == {};
        c.Conserved();
      }
    }
  }

  // ---------- whole runs ----------

  /** What a user of the pool may do: `Release(n)` gives back what the n-th operation got, if it still has it,
      and `Use(n, word)` overwrites the first word of that. */
  datatype Op = Get(size: nat) | Release(n: nat) | Use(n: nat, word: Block?)

  /** The blocks held, one place per operation; no block is held twice, and they are all that is live. */
  ghost predicate Holds(held: seq<Block?>, live: set<Block>) {
    && (forall i :: 0 <= i < |held| && held[i] != null ==> held[i] in live)
    && (forall b :: b in live ==> b in held)
    && (forall i, j :: 0 <= i < j < |held| && held[i] != null ==> held[i] != held[j])
  }

  lemma HoldsMore(held: seq<Block?>, live: set<Block>, b: Block?)
    requires Holds(held, live) && (b != null ==> b !in live)
    ensures Holds(held + [b], if b == null then live else live + {b})
  {
    var more := held + [b];
    assert forall x :: x in held ==> x in more;
    assert more[|held|] == b;
  }

  lemma HoldsLess(held: seq<Block?>, live: set<Block>, n: nat)
    requires Holds(held, live) && n < |held| && held[n] != null
    ensures Holds(held[n := null], live - {held[n]})
  {
    var less := held[n := null];
    forall b | b in live - {held[n]} ensures b in less {
      var i :| 0 <= i < |held| && held[i] == b;
      assert less[i] == b;
    }
  }

  /** Over any run no two blocks held are the same, and once all are given back every chunk's destructor finds
      all of its blocks. */
  method Run(max: nat, chunkBlocks: nat, ops: seq<Op>) returns (pool: CMemoryPool, held: seq<Block?>)
    ensures fresh(pool) && pool.Valid() && |held| == |ops| && Holds(held, pool.live)
    ensures (forall i :: 0 <= i < |held| ==> held[i] == null) ==>
      forall c :: c in pool.chunks ==> c.Valid() && c.Out() == {} && |c.free| == c.blockCount
  {
    hide Holds, CMemoryPool.Valid, ClassCount, ClassSize, Served;
    pool := new CMemoryPool(max, chunkBlocks);
    held := [];
    NothingHeld(held, pool.live);
    for i := 0 to |ops|
      invariant fresh(pool) && fresh(pool.chunks) && fresh(pool.blocks) && pool.Valid()
      invariant |held| == i && Holds(held, pool.live)
    {
      match ops[i]
      case Get(size) =>
        ghost var live := pool.live;
        var b := pool.New(size);
        HoldsMore(held, live, b);
        held := held + [b];
      case Release(n) =>
        if n < |held| && held[n] != null {
          HeldIsLive(held, pool.live, n);
          HoldsLess(held, pool.live, n);
          pool.LiveIsNotFree(held[n]);
          pool.Delete(held[n]);
          held := held[n := null];
        }
        HoldsMore(held, pool.live, null);
        held := held + [null];
      case Use(n, word) =>
        if n < |held| && held[n] != null {
          HeldIsLive(held, pool.live, n);
          pool.LiveIsNotFree(held[n]);
          pool.Write(held[n], word);
        }
        HoldsMore(held, pool.live, null);
        held := held + [null];
    }
    if forall i :: 0 <= i < |held| ==> held[i] == null {
      NothingHeld(held, pool.live);
      pool.DestroyIsClean();
    }
  }

  lemma HeldIsLive(held: seq<Block?>, live: set<Block>, n: nat)
    requires Holds(held, live) && n < |held| && held[n] != null
    ensures held[n] in live
  {
  }

  lemma NothingHeld(held: seq<Block?>, live: set<Block>)
    requires forall i :: 0 <= i < |held| ==> held[i] == null
    ensures live == {} <==> Holds(held, live)
  {
  }
}

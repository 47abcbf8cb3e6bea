/**
 Whole runs of a client of the heap: it keeps pointers in slots, stores and loads bytes through
 them, and sees a pool of separate buffers, each with the bytes it put there.
 */
module HeapRuns {
  import opened Lists
  import opened Strides
  import opened HeapBlocks
  import opened HeapCompact
  import opened HeapPairs
  import opened Heap

  datatype Op =
    | MallocOp(slot: nat, n: int)
    | FreeOp(slot: nat)
    | ReallocOp(slot: nat, n: int)
    | StoreOp(slot: nat, k: int, v: int)
    | LoadOp(slot: nat, k: int)

  /** A buffer of len bytes as the client knows it: the bytes stored so far. */
  datatype Buffer = Buffer(len: int, bytes: map<int, int>)

  type Pool = map<nat, Buffer>

  /** The client's pointers and the lengths it asked for. */
  datatype Slot = Slot(p: Addr, len: int)

  type Table = map<nat, Slot>

  function Drop<T>(m: map<nat, T>, slot: nat): map<nat, T> {
    map s | s in m && s != slot :: m[s]
  }

  /** The buffer cut off, or extended, to n bytes. */
  function Cut(b: Buffer, n: int): Buffer {
    Buffer(n, map k | k in b.bytes && k < n :: b.bytes[k])
  }

  /** What a call may do to the pool; ret is the pointer returned or the byte loaded. */
  ghost predicate StepOk(pool: Pool, op: Op, ret: int, pool': Pool) {
    match op
    case MallocOp(slot, n) =>
      if slot in pool || ret == NULL then pool' == pool else n > 0 && pool' == pool[slot := Buffer(n, map[])]
    case FreeOp(slot) => pool' == Drop(pool, slot)
    case ReallocOp(slot, n) =>
      if slot !in pool then pool' == pool
      else if n == 0 then pool' == Drop(pool, slot)
      else if ret == NULL then pool' == pool
      else pool' == pool[slot := Cut(pool[slot], n)]
    case StoreOp(slot, k, v) =>
      if slot in pool && 0 <= k < pool[slot].len
      then pool' == pool[slot := Buffer(pool[slot].len, pool[slot].bytes[k := v])]
      else pool' == pool
    case LoadOp(slot, k) =>
      pool' == pool && (slot in pool && k in pool[slot].bytes ==> ret == pool[slot].bytes[k])
  }

  ghost predicate Known1(b: Buffer, p: Addr, size: Sizes, bytes: map<Addr, int>) {
    && p - HDR in size && 0 <= b.len <= size[p - HDR]
    && forall k :: k in b.bytes ==> 0 <= k < b.len && p + k in bytes && bytes[p + k] == b.bytes[k]
  }

  /** Every slot has a used block of its own with the client's bytes in it. */
  ghost predicate Backed(used: seq<Addr>, size: Sizes, bytes: map<Addr, int>, ptr: Table, pool: Pool) {
    && ptr.Keys == pool.Keys
    && (forall s :: s in ptr ==>
          && ptr[s].len == pool[s].len && ptr[s].p != NULL && ptr[s].p - HDR in used
          && Known1(pool[s], ptr[s].p, size, bytes))
    && (forall s, t :: s in ptr && t in ptr && s != t ==> ptr[s].p != ptr[t].p)
  }

  /** A used block that keeps its size and its payload keeps what the client knows. */
  lemma StillKnown(b: Buffer, p: Addr, size: Sizes, bytes: map<Addr, int>, size': Sizes, bytes': map<Addr, int>)
    requires Known1(b, p, size, bytes) && p - HDR in size' && size'[p - HDR] == size[p - HDR]
    requires SamePayload(bytes, bytes', size', p - HDR)
    ensures Known1(b, p, size', bytes')
  {
    forall k | k in b.bytes ensures p + k in bytes' && bytes'[p + k] == b.bytes[k] {
      assert p - HDR + HDR <= p + k < After(size', p - HDR);
    }
  }

  /** Slots whose blocks stay, after a step that leaves their payloads alone. */
  lemma Carry(used: seq<Addr>, size: Sizes, bytes: map<Addr, int>, ptr: Table, pool: Pool,
              used': seq<Addr>, size': Sizes, bytes': map<Addr, int>, s: nat)
    requires Backed(used, size, bytes, ptr, pool) && s in ptr && ptr[s].p - HDR in used'
    requires Known(size', used') && Known(size, used) && size'[ptr[s].p - HDR] == size[ptr[s].p - HDR]
    requires SamePayload(bytes, bytes', size', ptr[s].p - HDR)
    ensures Known1(pool[s], ptr[s].p, size', bytes')
  {
    StillKnown(pool[s], ptr[s].p, size, bytes, size', bytes');
  }

  /** malloc into an empty slot. */
  method CallMalloc(h: RingHeap, ptr: Table, pool: Pool, slot: nat, n: int)
    returns (ret: int, ptr': Table, pool': Pool)
    requires h.Valid() && Backed(h.used, h.size, h.bytes, ptr, pool) && 0 <= n < LIMIT && slot !in pool
    modifies h
    ensures h.Valid() && h.acHeap == old(h.acHeap) && Backed(h.used, h.size, h.bytes, ptr', pool')
    ensures StepOk(pool, MallocOp(slot, n), ret, pool')
    ensures |Pairs(FreeSpace(h.free, h.size))| <= old(|Pairs(FreeSpace(h.free, h.size))|)
  {
    hide Chain, Sound, Bytes, Counts, NoFit, FirstFit, SamePayload, Known1, Pairs;
    ghost var used0, size0, bytes0 := h.used, h.size, h.bytes;
    UsedKnown(h.size, h.used, h.free, h.acHeap, h.top);
    ret := h.Malloc(n);
    ptr', pool' := ptr, pool;
    if ret != NULL {
      NewBlock(h.size, used0, ret - HDR, h.free, h.acHeap, h.top);
      UsedKnown(h.size, h.used, h.free, h.acHeap, h.top);
      EmptyBuffer(n, ret, h.size, h.bytes);
      GivenBacked(used0, size0, bytes0, ptr, pool, slot, h.used, h.size, h.bytes, ret, n);
      ptr', pool' := ptr[slot := Slot(ret, n)], pool[slot := Buffer(n, map[])];
    }
  }

  lemma GivenBacked(used: seq<Addr>, size: Sizes, bytes: map<Addr, int>, ptr: Table, pool: Pool, slot: nat,
                    used': seq<Addr>, size': Sizes, bytes': map<Addr, int>, q: Addr, n: int)
    requires Backed(used, size, bytes, ptr, pool) && slot !in ptr && Known(size, used) && Known(size', used')
    requires forall a :: a in used ==> a in used' && size'[a] == size[a] && SamePayload(bytes, bytes', size', a)
    requires q != NULL && q - HDR in used' && q - HDR !in used && Known1(Buffer(n, map[]), q, size', bytes')
    ensures Backed(used', size', bytes', ptr[slot := Slot(q, n)], pool[slot := Buffer(n, map[])])
  {
    hide Known1, SamePayload;
    forall s | s in ptr ensures ptr[s].p - HDR in used' && Known1(pool[s], ptr[s].p, size', bytes') && ptr[s].p != q {
      Carry(used, size, bytes, ptr, pool, used', size', bytes', s);
    }
  }

  lemma EmptyBuffer(n: int, p: Addr, size: Sizes, bytes: map<Addr, int>)
    requires p - HDR in size && 0 <= n <= size[p - HDR]
    ensures Known1(Buffer(n, map[]), p, size, bytes)
  {
  }

  /** free of a slot, called directly or by realloc to length 0. */
  method CallFree(h: RingHeap, ptr: Table, pool: Pool, slot: nat, byRealloc: bool)
    returns (ptr': Table, pool': Pool)
    requires h.Valid() && Backed(h.used, h.size, h.bytes, ptr, pool) && slot in ptr && h.acHeap != NULL
    modifies h
    ensures h.Valid() && h.acHeap == old(h.acHeap) && Backed(h.used, h.size, h.bytes, ptr', pool')
    ensures pool' == Drop(pool, slot)
    ensures |Pairs(FreeSpace(h.free, h.size))| <= old(|Pairs(FreeSpace(h.free, h.size))|) + 1
  {
    hide Chain, Sound, Bytes, Counts, SamePayload, Known1, Compact, NoneAdjacent, NoneMissed, Without, Distinct;
    hide NoFit, Pairs;
    ghost var used0, size0, bytes0 := h.used, h.size, h.bytes;
    UsedKnown(h.size, h.used, h.free, h.acHeap, h.top);
    ghost var i := IndexOf(h.used, ptr[slot].p - HDR);
    WithoutContains(h.used, i);
    if byRealloc {
      var r := h.Realloc(ptr[slot].p, 0);
      UsedPositive(h.size, h.used, h.free, h.acHeap, h.top);
    } else {
      h.Free(ptr[slot].p);
    }
    UsedKnown(h.size, h.used, h.free, h.acHeap, h.top);
    ptr', pool' := Drop(ptr, slot), Drop(pool, slot);
    FreedBacked(used0, size0, bytes0, ptr, pool, slot, h.used, h.size, h.bytes);
  }

  lemma UsedPositive(size: Sizes, used: seq<Addr>, free: seq<Addr>, lo: int, hi: int)
    requires Sound(size, used, free, lo, hi) && 0 < lo
    ensures forall a :: a in used ==> a > 0
  {
    forall a | a in used ensures a > 0 { PayloadsInside(size, used, free, lo, hi, a); }
  }

  lemma FreedBacked(used: seq<Addr>, size: Sizes, bytes: map<Addr, int>, ptr: Table, pool: Pool, slot: nat,
                    used': seq<Addr>, size': Sizes, bytes': map<Addr, int>)
    requires Backed(used, size, bytes, ptr, pool) && slot in ptr && Known(size, used) && Known(size', used')
    requires forall a :: a in used && a != ptr[slot].p - HDR ==> a in used'
    requires forall a :: a in used' ==> a in used && size'[a] == size[a] && SamePayload(bytes, bytes', size', a)
    ensures Backed(used', size', bytes', Drop(ptr, slot), Drop(pool, slot))
  {
    hide Known1, SamePayload;
    forall s | s in ptr && s != slot ensures ptr[s].p - HDR in used' && Known1(pool[s], ptr[s].p, size', bytes') {
      Carry(used, size, bytes, ptr, pool, used', size', bytes', s);
    }
  }

  /** realloc of a slot to a size other than 0. */
  method CallRealloc(h: RingHeap, ptr: Table, pool: Pool, slot: nat, n: int)
    returns (ret: int, ptr': Table, pool': Pool)
    requires h.Valid() && Backed(h.used, h.size, h.bytes, ptr, pool) && slot in ptr && 0 < n < LIMIT && h.acHeap != NULL
    modifies h
    ensures h.Valid() && h.acHeap == old(h.acHeap) && Backed(h.used, h.size, h.bytes, ptr', pool')
    ensures StepOk(pool, ReallocOp(slot, n), ret, pool')
    ensures |Pairs(FreeSpace(h.free, h.size))| <= old(|Pairs(FreeSpace(h.free, h.size))|) + 1
  {
    hide Chain, Sound, Bytes, Counts, NoFit, SamePayload, Known1, Without, Distinct, Copies, Pairs;
    ghost var used0, size0, bytes0 := h.used, h.size, h.bytes;
    UsedKnown(h.size, h.used, h.free, h.acHeap, h.top);
    ghost var i := IndexOf(h.used, ptr[slot].p - HDR);
    WithoutContains(h.used, i);
    ret := h.Realloc(ptr[slot].p, n);
    UsedKnown(h.size, h.used, h.free, h.acHeap, h.top);
    ptr', pool' := ptr, pool;
    if ret != NULL {
      PushContains(ret - HDR, Without(used0, i));
      MovedBuffer(pool[slot], ptr[slot].p, ret, n, size0, bytes0, h.size, h.bytes);
      MovedBacked(used0, size0, bytes0, ptr, pool, slot, h.used, h.size, h.bytes, ret, n);
      ptr' := ptr[slot := Slot(ret, n)];
      pool' := pool[slot := Cut(pool[slot], n)];
    }
  }

  lemma MovedBacked(used: seq<Addr>, size: Sizes, bytes: map<Addr, int>, ptr: Table, pool: Pool, slot: nat,
                    used': seq<Addr>, size': Sizes, bytes': map<Addr, int>, q: Addr, n: int)
    requires Backed(used, size, bytes, ptr, pool) && slot in ptr && Known(size, used) && Known(size', used')
    requires forall a :: a in used && a != ptr[slot].p - HDR ==> a in used'
    requires forall a :: a in used' && a != q - HDR ==>
                 a in used && size'[a] == size[a] && SamePayload(bytes, bytes', size', a)
    requires q != NULL && q - HDR in used' && q - HDR !in used && Known1(Cut(pool[slot], n), q, size', bytes')
    ensures Backed(used', size', bytes', ptr[slot := Slot(q, n)], pool[slot := Cut(pool[slot], n)])
  {
    hide Known1, SamePayload;
    forall s | s in ptr && s != slot
      ensures ptr[s].p - HDR in used' && Known1(pool[s], ptr[s].p, size', bytes') && ptr[s].p != q {
      Carry(used, size, bytes, ptr, pool, used', size', bytes', s);
    }
  }

  lemma MovedBuffer(b: Buffer, p: Addr, q: Addr, n: int, size: Sizes, bytes: map<Addr, int>, size': Sizes,
                    bytes': map<Addr, int>)
    requires Known1(b, p, size, bytes) && q - HDR in size' && 0 <= n <= size'[q - HDR]
    requires Copies(bytes, bytes', p, q, Min(n, size[p - HDR]))
    ensures Known1(Cut(b, n), q, size', bytes')
  {
    forall k | k in b.bytes && k < n ensures 0 <= k && q + k in bytes' && bytes'[q + k] == b.bytes[k] {
      assert SameByte(bytes, bytes', p, q, q + k);
    }
  }

  /** The client writes a byte of its own. */
  method CallStore(h: RingHeap, ptr: Table, pool: Pool, slot: nat, k: int, v: int) returns (pool': Pool)
    requires h.Valid() && Backed(h.used, h.size, h.bytes, ptr, pool) && slot in ptr && 0 <= k < pool[slot].len
    modifies h`bytes
    ensures h.Valid() && Backed(h.used, h.size, h.bytes, ptr, pool') && StepOk(pool, StoreOp(slot, k, v), 0, pool')
    ensures NoHeader(Blocks(h.used, h.free), ptr[slot].p + k)
  {
    hide Chain, Sound, Bytes, Counts, Known1;
    UsedKnown(h.size, h.used, h.free, h.acHeap, h.top);
    ghost var bytes0 := h.bytes;
    OwnByte(h.size, h.used, h.free, h.bytes, h.acHeap, h.top, ptr[slot].p - HDR, pool[slot], k, v);
    h.bytes := h.bytes[ptr[slot].p + k := v];
    pool' := pool[slot := Buffer(pool[slot].len, pool[slot].bytes[k := v])];
    forall s | s in ptr && s != slot ensures Known1(pool[s], ptr[s].p, h.size, h.bytes) {
      Carry(h.used, h.size, bytes0, ptr, pool, h.used, h.size, h.bytes, s);
    }
  }

  /** A byte of one block is in no other, and in no header. */
  lemma OwnByte(size: Sizes, used: seq<Addr>, free: seq<Addr>, bytes: map<Addr, int>, lo: int, hi: int, a: Addr,
                b: Buffer, k: int, v: int)
    requires Sound(size, used, free, lo, hi) && a in used && Known1(b, a + HDR, size, bytes) && 0 <= k < b.len
    requires forall p :: lo <= p < hi ==> p in bytes
    ensures forall c :: c in used && c != a ==> SamePayload(bytes, bytes[a + HDR + k := v], size, c)
    ensures Known1(Buffer(b.len, b.bytes[k := v]), a + HDR, size, bytes[a + HDR + k := v])
    ensures NoHeader(Blocks(used, free), a + HDR + k)
  {
    HeaderOutside(size, used, free, lo, hi, a, a + HDR + k);
    PayloadsInside(size, used, free, lo, hi, a);
    var bytes' := bytes[a + HDR + k := v];
    forall c | c in used && c != a ensures SamePayload(bytes, bytes', size, c) {
      PayloadsInside(size, used, free, lo, hi, c);
    }
  }

  /** A load reads memory; a slot that was stored to gives the byte stored. */
  method CallLoad(h: RingHeap, ptr: Table, pool: Pool, slot: nat, k: int) returns (ret: int)
    requires Backed(h.used, h.size, h.bytes, ptr, pool)
    ensures StepOk(pool, LoadOp(slot, k), ret, pool)
  {
    ret := 0;
    if slot in ptr && ptr[slot].p + k in h.bytes {
      ret := h.bytes[ptr[slot].p + k];
    }
    if slot in ptr { LoadsBack(pool[slot], ptr[slot].p, h.size, h.bytes, k); }
  }

  /** Calls that may free a block. */
  ghost predicate Releases(op: Op) {
    op.FreeOp? || op.ReallocOp?
  }

  ghost function ReleaseCount(ops: seq<Op>): int {
    if ops == [] then 0 else ReleaseCount(ops[..|ops| - 1]) + One(Releases(ops[|ops| - 1]))
  }

  /** One call of the client; calls on a slot in the wrong state do nothing. */
  method OneCall(h: RingHeap, ptr: Table, pool: Pool, op: Op) returns (ret: int, ptr': Table, pool': Pool)
    requires h.Valid() && h.acHeap != NULL && Backed(h.used, h.size, h.bytes, ptr, pool)
    requires (op.MallocOp? || op.ReallocOp?) ==> 0 <= op.n < LIMIT
    modifies h
    ensures h.Valid() && h.acHeap == old(h.acHeap) && Backed(h.used, h.size, h.bytes, ptr', pool')
    ensures StepOk(pool, op, ret, pool')
    ensures |Pairs(FreeSpace(h.free, h.size))| <= old(|Pairs(FreeSpace(h.free, h.size))|) + One(Releases(op))
  {
    hide Chain, Sound, Bytes, Counts, Known1, Backed, Distinct, Known, Cut, Drop, StepOk, Pairs;
    SlotFacts(h.used, h.size, h.bytes, ptr, pool);
    NothingDone(pool, op);
    ret, ptr', pool' := 0, ptr, pool;
    match op {
      case MallocOp(slot, n) =>
        if slot !in ptr {
          ret, ptr', pool' := CallMalloc(h, ptr, pool, slot, n);
        }
      case FreeOp(slot) =>
        if slot in ptr {
          ptr', pool' := CallFree(h, ptr, pool, slot, false);
          Dropped(pool, op);
        }
      case ReallocOp(slot, n) =>
        if slot in ptr && n == 0 {
          ptr', pool' := CallFree(h, ptr, pool, slot, true);
          Dropped(pool, op);
        } else if slot in ptr {
          ret, ptr', pool' := CallRealloc(h, ptr, pool, slot, n);
        }
      case StoreOp(slot, k, v) =>
        if slot in ptr && 0 <= k < ptr[slot].len {
          pool' := CallStore(h, ptr, pool, slot, k, v);
        }
      case LoadOp(slot, k) =>
        ret := CallLoad(h, ptr, pool, slot, k);
    }
  }

  lemma NothingDone(pool: Pool, op: Op)
    ensures op.slot !in pool && !op.MallocOp? && !op.LoadOp? ==> StepOk(pool, op, 0, pool)
    ensures op.MallocOp? && op.slot in pool ==> StepOk(pool, op, 0, pool)
    ensures op.StoreOp? && op.slot in pool && !(0 <= op.k < pool[op.slot].len) ==> StepOk(pool, op, 0, pool)
  {
    assert op.slot !in pool ==> Drop(pool, op.slot) == pool;
  }

  lemma Dropped(pool: Pool, op: Op)
    requires op.slot in pool && (op.FreeOp? || (op.ReallocOp? && op.n == 0))
    ensures StepOk(pool, op, 0, Drop(pool, op.slot))
  {
  }

  lemma SlotFacts(used: seq<Addr>, size: Sizes, bytes: map<Addr, int>, ptr: Table, pool: Pool)
    requires Backed(used, size, bytes, ptr, pool)
    ensures ptr.Keys == pool.Keys && forall s :: s in ptr ==> ptr[s].len == pool[s].len
  {
  }

  lemma NoSlots(used: seq<Addr>, size: Sizes, bytes: map<Addr, int>)
    ensures Backed(used, size, bytes, map[], map[])
  {
  }

  lemma LoadsBack(b: Buffer, p: Addr, size: Sizes, bytes: map<Addr, int>, k: int)
    requires Known1(b, p, size, bytes)
    ensures k in b.bytes ==> p + k in bytes && bytes[p + k] == b.bytes[k]
  {
  }

  /**
   Any run of malloc, free, realloc, stores and loads on a heap in any state: the client sees separate
   buffers, each load returns the byte last stored at its place, also across realloc, and there is at most
   one more pair of touching free blocks for every call that frees.
   */
  method Continue(h: RingHeap, ptr0: Table, pool0: Pool, ops: seq<Op>) returns (rets: seq<int>, pools: seq<Pool>)
    requires h.Valid() && h.acHeap != NULL && Backed(h.used, h.size, h.bytes, ptr0, pool0)
    requires forall t :: 0 <= t < |ops| && (ops[t].MallocOp? || ops[t].ReallocOp?) ==> 0 <= ops[t].n < LIMIT
    modifies h
    ensures h.Valid() && |rets| == |ops| && |pools| == |ops| + 1 && pools[0] == pool0
    ensures forall t :: 0 <= t < |ops| ==> StepOk(pools[t], ops[t], rets[t], pools[t + 1])
    ensures |Pairs(FreeSpace(h.free, h.size))| <= old(|Pairs(FreeSpace(h.free, h.size))|) + ReleaseCount(ops)
  {
    hide Chain, Sound, Bytes, Counts, StepOk, Backed, Pairs, One, Releases;
    var ptr, pool := ptr0, pool0;
    rets, pools := [], [pool];
    var t := 0;
    while t < |ops|
      invariant 0 <= t <= |ops| && |rets| == t && |pools| == t + 1 && pools[0] == pool0 && pools[t] == pool
      invariant h.Valid() && h.acHeap != NULL && Backed(h.used, h.size, h.bytes, ptr, pool)
      invariant forall j :: 0 <= j < t ==> StepOk(pools[j], ops[j], rets[j], pools[j + 1])
      invariant |Pairs(FreeSpace(h.free, h.size))|
             <= old(|Pairs(FreeSpace(h.free, h.size))|) + ReleaseCount(ops[..t])
    {
      var ret;
      ret, ptr, pool := OneCall(h, ptr, pool, ops[t]);
      rets, pools := rets + [ret], pools + [pool];
      assert ops[..t + 1][..t] == ops[..t];
      t := t + 1;
    }
    assert ops[..t] == ops;
  }

  /** The same from the initialisation of the heap on. */
  method RunAll(ulSize: int, addr: Addr, mem: map<Addr, int>, ops: seq<Op>) returns (rets: seq<int>, pools: seq<Pool>)
    requires (ulSize == 0 || HDR <= ulSize < LIMIT) && 0 < addr && forall p :: addr <= p < addr + HEAP_SIZE ==> p in mem
    requires forall t :: 0 <= t < |ops| && (ops[t].MallocOp? || ops[t].ReallocOp?) ==> 0 <= ops[t].n < LIMIT
    ensures |rets| == |ops| && |pools| == |ops| + 1 && pools[0] == map[]
    ensures forall t :: 0 <= t < |ops| ==> StepOk(pools[t], ops[t], rets[t], pools[t + 1])
  {
    hide Chain, Sound, Bytes, Counts, StepOk, Backed, Pairs;
    var h := new RingHeap();
    var total := h.HeapInit(ulSize, addr, mem);
    NoSlots(h.used, h.size, h.bytes);
    rets, pools := Continue(h, map[], map[], ops);
  }

  // ------------------------------------------------- a run that leaves touching free blocks behind

  /** A malloc of 4 bytes from a heap whose free memory is the one block a. */
  method TakeFour(h: RingHeap, a: Addr, n: int)
    requires h.Valid() && h.acHeap != NULL && h.free == [a] && a in h.size && h.size[a] == n >= 20
    modifies h
    ensures h.Valid() && h.acHeap == old(h.acHeap) && h.used == [a] + old(h.used) && h.free == [a + 16]
    ensures a in h.size && a + 16 in h.size && h.size[a] == 4 && h.size[a + 16] == n - 16
    ensures forall b :: b in old(h.used) ==> b in h.size && b in old(h.size) && h.size[b] == old(h.size[b])
  {
    hide Chain, Sound, Bytes, Counts, Pairs, SamePayload;
    assert !NoFit(h.size, h.free, Align4(4)) by { assert a in h.free; }
    var r := h.Malloc(4);
  }

  /** A free of block x, told by what is left of the other used blocks. */
  method GiveBackOne(h: RingHeap, x: Addr, ghost r: FreeSpace)
    requires h.Valid() && h.acHeap != NULL && x in h.used && x > 0 && Known(h.size, [x] + h.free)
    requires Compact(FreeSpace([x] + h.free, h.size), 1, 0) == r
    modifies h
    ensures h.Valid() && h.acHeap == old(h.acHeap) && FreeSpace(h.free, h.size) == r
    ensures forall b :: b in old(h.used) && b != x ==> b in h.used
  {
    hide Chain, Sound, Bytes, Counts, Pairs, SamePayload, Compact, NoneAdjacent, NoneMissed;
    WithoutContains(h.used, IndexOf(h.used, x));
    h.Free(x + HDR);
  }

  ghost predicate Fours(size: Sizes) {
    && 16 in size && 32 in size && 48 in size && 64 in size && 80 in size && 96 in size
    && size[16] == size[32] == size[48] == size[64] == size[80] == size[96] == 4
  }

  /** No entry touches the head: nothing is joined. */
  lemma NothingToJoin(size: Sizes, x: Addr, free: seq<Addr>)
    requires Known(size, [x] + free)
    requires forall k :: 0 <= k < |free| ==> After(size, free[k]) != x && After(size, x) != free[k]
    ensures Compact(FreeSpace([x] + free, size), 1, 0) == FreeSpace([x] + free, size)
  {
    var f := FreeSpace([x] + free, size);
    forall k | 1 <= k < |f.free| ensures Aloof(f, k) { assert f.free[k] == free[k - 1]; }
    Skip(f, 1, |f.free|, 0);
    AtListEnd(f, 0);
  }

  lemma FirstFree(size: Sizes)
    requires Fours(size)
    ensures Compact(FreeSpace([80] + [96], size), 1, 0) == FreeSpace([80], size[80 := 20])
  {
    var f := FreeSpace([80] + [96], size);
    assert Without(f.free, 1) == [80];
    hide Compact;
    StepEntry(f, 1, 0);
    AtListEnd(JoinEntry(f, 1), 1);
  }

  lemma LastFree(size: Sizes)
    requires Fours(size)
    ensures Compact(FreeSpace([64] + [16, 48, 80], size[80 := 20]), 1, 0)
         == FreeSpace([16, 48, 80], size[80 := 20][48 := 20])
  {
    hide Compact;
    var f := FreeSpace([64] + [16, 48, 80], size[80 := 20]);
    assert Aloof(f, 1);
    Skip(f, 1, 2, 0);
    assert f.free[1..] == [16, 48, 80];
    StepHead(f, 2, 0);
    var g := JoinHead(f, 2);
    assert Aloof(g, 2);
    Skip(g, 2, 3, 1);
    AtListEnd(g, 1);
  }

  /** Five mallocs of 4 bytes from a heap of 96 bytes at 16. */
  method FiveBlocks(mem: map<Addr, int>) returns (h: RingHeap)
    requires forall p :: 16 <= p < 16 + HEAP_SIZE ==> p in mem
    ensures fresh(h) && h.Valid() && h.acHeap == 16 && h.used == [80, 64, 48, 32, 16] && h.free == [96] && Fours(h.size)
  {
    hide Chain, Sound, Bytes, Counts;
    h := new RingHeap();
    var total := h.HeapInit(96, 16, mem);
    TakeFour(h, 16, 84);
    TakeFour(h, 32, 68);
    TakeFour(h, 48, 52);
    TakeFour(h, 64, 36);
    TakeFour(h, 80, 20);
  }

  /** Four frees later the free blocks at 48 and 80 touch. */
  method MissedRun(mem: map<Addr, int>) returns (h: RingHeap)
    requires forall p :: 16 <= p < 16 + HEAP_SIZE ==> p in mem
    ensures fresh(h) && h.Valid() && h.free == [16, 48, 80] && Adjacent(FreeSpace(h.free, h.size), 48, 80)
  {
    hide Chain, Sound, Bytes, Counts, Compact;
    h := FiveBlocks(mem);
    ghost var size, size1 := h.size, h.size[80 := 20];
    FirstFree(size);
    GiveBackOne(h, 80, FreeSpace([80], size1));
    NothingToJoin(size1, 48, [80]);
    GiveBackOne(h, 48, FreeSpace([48, 80], size1));
    NothingToJoin(size1, 16, [48, 80]);
    GiveBackOne(h, 16, FreeSpace([16, 48, 80], size1));
    LastFree(size);
    GiveBackOne(h, 64, FreeSpace([16, 48, 80], size1[48 := 20]));
  }
}

/**
 Replaying the cache to hardware: regcache.c, with the hardware as a map from register to value
 that _regmap_write and _regmap_raw_write update.
 */
module RegSync {
  import opened RedBlackTree
  import opened RbTree
  import opened CacheBlock
  import opened Strides
  import opened Bitmap
  import opened RegCache

  datatype Default = Default(reg: int, def: int)

  type Hardware = map<int, int>

  /** One register update. */
  datatype Update = Update(reg: int, val: int)

  /** One _regmap_raw_write: consecutive registers from `base` on. */
  datatype RawWrite = RawWrite(base: int, vals: seq<int>)

  /** The fields of struct regmap that a sync only reads. */
  datatype Config = Config(stride: int, noSyncDefaults: bool, defaults: seq<Default>, writeable: int -> bool)

  function Apply(hw: Hardware, log: seq<Update>): Hardware {
    if log == [] then hw else Apply(hw, log[..|log| - 1])[log[|log| - 1].reg := log[|log| - 1].val]
  }

  /** Update k is the last one of register r. */
  ghost predicate LastOf(log: seq<Update>, r: int, k: int) {
    0 <= k < |log| && log[k].reg == r && forall j :: k < j < |log| ==> log[j].reg != r
  }

  /** Each register holds the value of its last update, and the others what they held before. */
  lemma {:induction false} LastUpdateWins(hw: Hardware, log: seq<Update>, r: int)
    ensures forall k :: LastOf(log, r, k) ==> r in Apply(hw, log) && Apply(hw, log)[r] == log[k].val
    ensures (forall k :: !LastOf(log, r, k)) ==>
              (r in Apply(hw, log) <==> r in hw) && (r in hw ==> Apply(hw, log)[r] == hw[r])
    decreases |log|
  {
    if log != [] {
      var n := |log| - 1;
      var log', u := log[..n], log[n];
      LastUpdateWins(hw, log', r);
      assert Apply(hw, log) == Apply(hw, log')[u.reg := u.val];
      hide Apply;
      if u.reg == r {
        assert LastOf(log, r, n);
      } else {
        forall k ensures LastOf(log, r, k) <==> LastOf(log', r, k) {}
      }
    }
  }

  // ------------------------------------------------------------------ needs_sync

  /** A 32-bit difference read as a signed int, as regcache_default_cmp returns it. */
  function SignedDiff(a: int, b: int): int {
    var d := (a - b) % LIMIT;
    if d < LIMIT / 2 then d else d - LIMIT
  }

  ghost predicate SortedDefaults(d: seq<Default>) {
    && (forall i :: 0 <= i < |d| ==> 0 <= d[i].reg < LIMIT / 2)
    && (forall i, j :: 0 <= i < j < |d| ==> d[i].reg < d[j].reg)
  }

  /** bsearch between lo and hi with the comparison regcache_default_cmp; -1 when nothing compares equal. */
  function Search(d: seq<Default>, reg: int, lo: int, hi: int): (r: int)
    requires 0 <= lo <= hi <= |d| && 0 <= reg < LIMIT && forall i :: 0 <= i < |d| ==> 0 <= d[i].reg < LIMIT
    ensures r < |d| && (r >= 0 ==> d[r].reg == reg)
    ensures r < 0 && SortedDefaults(d) && reg < LIMIT / 2 ==> forall i :: lo <= i < hi ==> d[i].reg != reg
    decreases hi - lo
  {
    if lo == hi then -1
    else
      var mid := (lo + hi) / 2;
      var c := SignedDiff(reg, d[mid].reg);
      if c == 0 then mid else if c < 0 then Search(d, reg, lo, mid) else Search(d, reg, mid + 1, hi)
  }

  ghost predicate ConfigOk(cfg: Config) {
    1 <= cfg.stride < LIMIT && forall i :: 0 <= i < |cfg.defaults| ==> 0 <= cfg.defaults[i].reg < LIMIT
  }

  /** regcache_reg_needs_sync: only a register whose value is its hardware default is skipped. */
  predicate NeedsSync(cfg: Config, reg: int, val: int): (b: bool)
    requires 0 <= reg < LIMIT && ConfigOk(cfg)
    ensures !b ==> cfg.noSyncDefaults && Default(reg, val) in cfg.defaults
    ensures SortedDefaults(cfg.defaults) && reg < LIMIT / 2 ==>
              (!b <==> cfg.noSyncDefaults && Default(reg, val) in cfg.defaults)
  {
    if !cfg.noSyncDefaults then true
    else
      var ret := Search(cfg.defaults, reg, 0, |cfg.defaults|);
      !(ret >= 0 && val == cfg.defaults[ret].def)
  }

  // ------------------------------------------------------------- one block, two ways

  function RegOf(b: Block, stride: int, i: int): int {
    b.base + i * stride
  }

  ghost predicate Syncable(cfg: Config, b: Block, start: int, end: int) {
    ConfigOk(cfg) && BlockOk(b, cfg.stride) && 0 <= start <= end <= b.len
  }

  lemma RegInRange(cfg: Config, b: Block, i: int)
    requires Syncable(cfg, b, 0, b.len) && 0 <= i < b.len
    ensures 0 <= RegOf(b, cfg.stride, i) < LIMIT
    ensures RegOf(b, cfg.stride, i) % cfg.stride == 0 && RegOf(b, cfg.stride, i) / cfg.stride == Lo(b, cfg.stride) + i
  {
    var l := b.base / cfg.stride;
    MulMonotone(i, b.len - 1, cfg.stride);
    MulMonotone(0, i, cfg.stride);
    DivMod(b.base, cfg.stride);
    assert RegOf(b, cfg.stride, i) == (l + i) * cfg.stride + 0;
    DivExact(l + i, 0, cfg.stride);
  }

  /** Register i of the block is present, writeable and not known to hold its default. */
  predicate Wanted(cfg: Config, b: Block, i: int)
    requires Syncable(cfg, b, 0, b.len) && 0 <= i < b.len
  {
    var reg := RegOf(b, cfg.stride, i);
    RegInRange(cfg, b, i);
    At(b.present, i) && cfg.writeable(reg) && NeedsSync(cfg, reg, b.vals[i])
  }

  /** The updates of the wanted registers, in order. */
  ghost function BlockLog(cfg: Config, b: Block, start: int, end: int): seq<Update>
    requires Syncable(cfg, b, start, end)
    decreases end - start
  {
    if start == end then []
    else if Wanted(cfg, b, end - 1) then
      BlockLog(cfg, b, start, end - 1) + [Update(RegOf(b, cfg.stride, end - 1), b.vals[end - 1])]
    else BlockLog(cfg, b, start, end - 1)
  }

  /** The updates go from low to high registers. */
  ghost predicate Rising(log: seq<Update>, top: int) {
    && (forall i, j :: 0 <= i < j < |log| ==> log[i].reg < log[j].reg)
    && forall i :: 0 <= i < |log| ==> log[i].reg < top
  }

  lemma RisingStep(log: seq<Update>, u: Update, top: int, top': int)
    requires Rising(log, top) && top <= u.reg < top'
    ensures Rising(log + [u], top')
  {
  }

  lemma {:induction false} LogRises(cfg: Config, b: Block, start: int, end: int)
    requires Syncable(cfg, b, start, end)
    ensures Rising(BlockLog(cfg, b, start, end), RegOf(b, cfg.stride, end))
    decreases end - start
  {
    hide Wanted, Rising;
    if start < end {
      LogRises(cfg, b, start, end - 1);
      MulStrict(end - 1, end, cfg.stride);
      var log := BlockLog(cfg, b, start, end - 1);
      RisingStep(log, Update(RegOf(b, cfg.stride, end - 1), b.vals[end - 1]), RegOf(b, cfg.stride, end - 1),
                 RegOf(b, cfg.stride, end));
      HigherTop(log, RegOf(b, cfg.stride, end - 1), RegOf(b, cfg.stride, end));
    } else {
      EmptyRises(RegOf(b, cfg.stride, end));
    }
  }

  lemma HigherTop(log: seq<Update>, top: int, top': int)
    requires Rising(log, top) && top <= top'
    ensures Rising(log, top')
  {
  }

  lemma EmptyRises(top: int)
    ensures Rising([], top)
  {
  }

  /** regcache_sync_block_single */
  method SyncBlockSingle(cfg: Config, b: Block, start: int, end: int, hw: Hardware) returns (hw': Hardware)
    requires Syncable(cfg, b, start, end)
    ensures hw' == Apply(hw, BlockLog(cfg, b, start, end))
  {
    hw' := hw;
    var i := start;
    while i < end
      invariant start <= i <= end && hw' == Apply(hw, BlockLog(cfg, b, start, i))
    {
      if Wanted(cfg, b, i) {
        hw' := hw'[RegOf(b, cfg.stride, i) := b.vals[i]];
        ghost var log := BlockLog(cfg, b, start, i);
        assert (log + [Update(RegOf(b, cfg.stride, i), b.vals[i])])[..|log|] == log;
      }
      i := i + 1;
    }
  }

  /** A raw write read as consecutive single writes. */
  function Expand(w: RawWrite, stride: int): seq<Update> {
    seq(|w.vals|, k requires 0 <= k < |w.vals| => Update(w.base + k * stride, w.vals[k]))
  }

  function Flatten(ws: seq<RawWrite>, stride: int): seq<Update> {
    if ws == [] then [] else Flatten(ws[..|ws| - 1], stride) + Expand(ws[|ws| - 1], stride)
  }

  /** The pending run of regcache_sync_block_raw: registers from..to, or nothing when data is NULL. */
  ghost function Run(b: Block, stride: int, from: int, to: int): seq<Update>
    requires from < 0 || from <= to <= |b.vals|
  {
    if from < 0 then []
    else seq(to - from, k requires 0 <= k < to - from => Update(RegOf(b, stride, from + k), b.vals[from + k]))
  }

  /** A run this long goes through the whole 32-bit register space, and its length comes out as 0. */
  predicate FullCircle(stride: int, n: int) {
    n * stride >= LIMIT
  }

  /** (cur - base) / reg_stride in 32 bits: the length of the run, or 0 when the run is the whole space. */
  lemma RunLength(b: Block, stride: int, from: int, to: int)
    requires BlockOk(b, stride) && stride < LIMIT && 0 <= from < to <= b.len
    ensures (RegOf(b, stride, to) % LIMIT - RegOf(b, stride, from)) % LIMIT / stride
         == if FullCircle(stride, to - from) then 0 else to - from
    ensures FullCircle(stride, to - from) ==> from == 0 && to == b.len && b.base == 0
  {
    var r, d := RegOf(b, stride, from), (to - from) * stride;
    RunBounds(b, stride, from, to);
    assert RegOf(b, stride, to) == r + d;
    WrappedDifference(r, d, stride);
    if d >= LIMIT {
      DivExact(0, d - LIMIT, stride);
    } else {
      DivExact(to - from, 0, stride);
    }
  }

  lemma WrappedDifference(r: int, d: int, stride: int)
    requires 0 <= r && 0 < d && r + d < LIMIT + stride && 0 < stride < LIMIT
    ensures ((r + d) % LIMIT - r) % LIMIT == if d < LIMIT then d else d - LIMIT
  {
  }

  lemma RunBounds(b: Block, stride: int, from: int, to: int)
    requires BlockOk(b, stride) && 0 <= from < to <= b.len
    ensures 0 <= RegOf(b, stride, from) && RegOf(b, stride, from) + (to - from) * stride < LIMIT + stride
    ensures 0 < (to - from) * stride
    ensures FullCircle(stride, to - from) ==> from == 0 && to == b.len && b.base == 0
  {
    MulMonotone(0, from, stride);
    MulMonotone(1, to - from, stride);
    MulMonotone(to, b.len, stride);
    assert RegOf(b, stride, from) + (to - from) * stride == b.base + to * stride;
    assert b.base + b.len * stride == TopReg(b.base, b.len, stride) + stride;
    if 0 < b.base < stride { DivExact(0, b.base, stride); }
    if from > 0 { MulMonotone(1, from, stride); }
    if to < b.len { MulMonotone(to, b.len - 1, stride); }
  }

  /**
   regcache_sync_block_raw_flush: `from` is the index data points at, -1 for NULL.  _regmap_raw_write refuses a
   write of no registers, which is what a run through the whole register space is taken for.
   */
  method Flush(b: Block, stride: int, writes: seq<RawWrite>, from: int, base: int, cur: int, ghost to: int)
    returns (writes': seq<RawWrite>, ok: bool)
    requires BlockOk(b, stride) && stride < LIMIT && from < to <= b.len
    requires from >= 0 ==> base == RegOf(b, stride, from) && cur == RegOf(b, stride, to) % LIMIT
    ensures ok <==> from < 0 || !FullCircle(stride, to - from)
    ensures ok ==> Flatten(writes', stride) == Flatten(writes, stride) + Run(b, stride, from, to)
    ensures !ok ==> writes' == writes
  {
    if from < 0 {
      return writes, true;
    }
    RunLength(b, stride, from, to);
    hide FullCircle, BlockOk;
    var count := (cur - base) % LIMIT / stride;
    if count == 0 {
      return writes, false;
    }
    var w := RawWrite(base, b.vals[from..from + count]);
    writes', ok := writes + [w], true;
    assert writes'[..|writes|] == writes;
    ExpandRun(b, stride, from, to);
  }

  lemma ExpandRun(b: Block, stride: int, from: int, to: int)
    requires 0 <= from <= to <= |b.vals|
    ensures Expand(RawWrite(RegOf(b, stride, from), b.vals[from..to]), stride) == Run(b, stride, from, to)
  {
    forall k | 0 <= k < to - from ensures RegOf(b, stride, from) + k * stride == RegOf(b, stride, from + k) {}
  }

  /** The registers start..end are the whole register space and all of them are to be written. */
  ghost predicate AllSpace(cfg: Config, b: Block, start: int, end: int)
    requires Syncable(cfg, b, start, end)
  {
    FullCircle(cfg.stride, end - start) && forall i :: start <= i < end ==> Wanted(cfg, b, i)
  }

  /**
   regcache_sync_block_raw: coalesced runs, in total the same ordered updates as the single writes, unless one run
   is the whole register space, which fails with nothing written.
   */
  method SyncBlockRaw(cfg: Config, b: Block, start: int, end: int) returns (writes: seq<RawWrite>, ok: bool)
    requires Syncable(cfg, b, start, end)
    ensures ok <==> !AllSpace(cfg, b, start, end)
    ensures ok ==> Flatten(writes, cfg.stride) == BlockLog(cfg, b, start, end)
    ensures !ok ==> writes == []
  {
    hide Wanted, Flatten, Run, BlockLog, FullCircle, BlockOk, AllSpace, RegOf, Logged, ConfigOk;
    SyncFacts(cfg, b, start, end);
    writes := [];
    NothingYet(cfg, b, start);
    var i, from, base, regtmp := start, -1, 0, 0;
    while i < end
      invariant start <= i <= end && from < i && (from >= 0 ==> start <= from && base == RegOf(b, cfg.stride, from))
      invariant i > start ==> regtmp == RegOf(b, cfg.stride, i - 1)
      invariant Logged(cfg, b, start, i, from, writes)
      invariant from >= 0 ==> forall j :: from <= j < i ==> Wanted(cfg, b, j)
      invariant from < 0 && i > start ==> !Wanted(cfg, b, i - 1)
      invariant from > start ==> !Wanted(cfg, b, from - 1)
      invariant from == start || i == start ==> writes == []
    {
      regtmp := RegOf(b, cfg.stride, i);
      if !Wanted(cfg, b, i) {
        var ok';
        ghost var writes0 := writes;
        InRange32(cfg, b, i);
        writes, ok' := Flush(b, cfg.stride, writes, from, base, regtmp, i);
        PartialRun(b, cfg.stride, from, i);
        if !ok' {
          assert false;
        }
        LoggedFlushed(cfg, b, start, i, from, writes0, writes);
        from := -1;
      } else {
        LoggedWanted(cfg, b, start, i, from, writes);
        if from < 0 {
          from, base := i, regtmp;
        }
      }
      i := i + 1;
    }
    LoggedAll(cfg, b, start, end, from, writes);
    if start == end {
      EmptyRange(cfg, b, start);
      return writes, true;
    }
    RegNext(b, cfg.stride, end - 1);
    writes, ok := Flush(b, cfg.stride, writes, from, base, (regtmp + cfg.stride) % LIMIT, end);
    WholeRun(cfg, b, start, end, from);
  }

  lemma SyncFacts(cfg: Config, b: Block, start: int, end: int)
    requires Syncable(cfg, b, start, end)
    ensures |b.vals| == b.len && 1 <= cfg.stride < LIMIT
  {
  }

  lemma RegNext(b: Block, stride: int, i: int)
    ensures RegOf(b, stride, i + 1) == RegOf(b, stride, i) + stride
  {
  }

  lemma EmptyRange(cfg: Config, b: Block, start: int)
    requires Syncable(cfg, b, start, start)
    ensures !AllSpace(cfg, b, start, start)
  {
  }

  lemma NoCircle(stride: int)
    ensures !FullCircle(stride, 0)
  {
  }

  lemma InRange32(cfg: Config, b: Block, i: int)
    requires Syncable(cfg, b, 0, b.len) && 0 <= i < b.len
    ensures RegOf(b, cfg.stride, i) % LIMIT == RegOf(b, cfg.stride, i)
  {
    RegInRange(cfg, b, i);
  }

  /** A run that ends before the block does is not the whole space. */
  lemma PartialRun(b: Block, stride: int, from: int, to: int)
    requires BlockOk(b, stride) && stride < LIMIT && from < to < b.len
    ensures from >= 0 ==> !FullCircle(stride, to - from)
  {
    if from >= 0 { RunLength(b, stride, from, to); }
  }

  /** The last run is the whole space exactly when all registers are. */
  lemma WholeRun(cfg: Config, b: Block, start: int, end: int, from: int)
    requires Syncable(cfg, b, start, end) && start < end && (from < 0 || start <= from < end)
    requires from >= 0 ==> forall j :: from <= j < end ==> Wanted(cfg, b, j)
    requires from < 0 ==> !Wanted(cfg, b, end - 1)
    requires from > start ==> !Wanted(cfg, b, from - 1)
    ensures AllSpace(cfg, b, start, end) <==> from >= 0 && FullCircle(cfg.stride, end - from)
    ensures from >= 0 && FullCircle(cfg.stride, end - from) ==> from == start
  {
    hide Wanted;
    if from >= 0 { RunLength(b, cfg.stride, from, end); }
    RunLength(b, cfg.stride, start, end);
    hide FullCircle;
    assert from < 0 ==> !AllSpace(cfg, b, start, end);
    assert from > start ==> !AllSpace(cfg, b, start, end);
  }

  /** The raw writes so far and the pending run are the updates of the registers before i. */
  ghost predicate Logged(cfg: Config, b: Block, start: int, i: int, from: int, writes: seq<RawWrite>)
    requires Syncable(cfg, b, start, i) && from <= i
  {
    Flatten(writes, cfg.stride) + Run(b, cfg.stride, from, i) == BlockLog(cfg, b, start, i)
  }

  lemma NothingYet(cfg: Config, b: Block, start: int)
    requires Syncable(cfg, b, start, start)
    ensures Logged(cfg, b, start, start, -1, [])
  {
  }

  lemma LoggedWanted(cfg: Config, b: Block, start: int, i: int, from: int, writes: seq<RawWrite>)
    requires Syncable(cfg, b, start, i + 1) && start <= i && from <= i && Logged(cfg, b, start, i, from, writes)
    requires Wanted(cfg, b, i)
    ensures Logged(cfg, b, start, i + 1, if from < 0 then i else from, writes)
  {
    RunStep(b, cfg.stride, from, i);
    LogStep(cfg, b, start, i);
    hide Wanted, Flatten, Run, BlockLog;
    Assoc(Flatten(writes, cfg.stride), Run(b, cfg.stride, from, i), [Update(RegOf(b, cfg.stride, i), b.vals[i])]);
  }

  lemma LoggedFlushed(cfg: Config, b: Block, start: int, i: int, from: int, writes: seq<RawWrite>,
                      writes': seq<RawWrite>)
    requires Syncable(cfg, b, start, i + 1) && start <= i && from <= i && Logged(cfg, b, start, i, from, writes)
    requires !Wanted(cfg, b, i)
    requires Flatten(writes', cfg.stride) == Flatten(writes, cfg.stride) + Run(b, cfg.stride, from, i)
    ensures Logged(cfg, b, start, i + 1, -1, writes')
  {
    RunStep(b, cfg.stride, from, i);
    LogStep(cfg, b, start, i);
    hide Wanted, Flatten, Run, BlockLog;
  }

  lemma LoggedAll(cfg: Config, b: Block, start: int, end: int, from: int, writes: seq<RawWrite>)
    requires Syncable(cfg, b, start, end) && from <= end && Logged(cfg, b, start, end, from, writes)
    ensures Flatten(writes, cfg.stride) + Run(b, cfg.stride, from, end) == BlockLog(cfg, b, start, end)
    ensures start == end && from < 0 ==> Flatten(writes, cfg.stride) == BlockLog(cfg, b, start, end)
  {
  }

  lemma LogStep(cfg: Config, b: Block, start: int, i: int)
    requires Syncable(cfg, b, start, i + 1) && start <= i
    ensures BlockLog(cfg, b, start, i + 1)
         == BlockLog(cfg, b, start, i) + if Wanted(cfg, b, i) then [Update(RegOf(b, cfg.stride, i), b.vals[i])] else []
  {
    hide Wanted;
  }

  lemma Assoc(a: seq<Update>, b: seq<Update>, c: seq<Update>)
    ensures (a + b) + c == a + (b + c)
  {
  }

  lemma RunStep(b: Block, stride: int, from: int, i: int)
    requires from < 0 || from <= i
    requires 0 <= i < |b.vals|
    ensures from >= 0 ==>
              Run(b, stride, from, i + 1) == Run(b, stride, from, i) + [Update(RegOf(b, stride, i), b.vals[i])]
    ensures Run(b, stride, i, i + 1) == [Update(RegOf(b, stride, i), b.vals[i])]
    ensures from < 0 ==> Run(b, stride, from, i) == []
    ensures Run(b, stride, -1, i + 1) == []
  {
  }

  // ------------------------------------------------------------- the whole cache

  ghost predicate SameAt(hw: Hardware, hw': Hardware, r: int) {
    (r in hw <==> r in hw') && (r in hw ==> hw'[r] == hw[r])
  }

  /** A register the sync is responsible for: cached, writeable and within [lo, hi]. */
  ghost predicate Target(cfg: Config, contents: map<int, int>, lo: int, hi: int, r: int)
    requires 1 <= cfg.stride
  {
    r % cfg.stride == 0 && r / cfg.stride in contents && lo <= r / cfg.stride <= hi && cfg.writeable(r)
  }

  ghost predicate DefaultsIn(cfg: Config, hw: Hardware) {
    cfg.noSyncDefaults ==> forall d :: d in cfg.defaults ==> d.reg in hw && hw[d.reg] == d.def
  }

  /** hw' holds the cached value of every target register and equals hw everywhere else. */
  ghost predicate Synced(cfg: Config, contents: map<int, int>, lo: int, hi: int, hw: Hardware, hw': Hardware)
    requires 1 <= cfg.stride
  {
    && (forall r :: Target(cfg, contents, lo, hi, r) ==> r in hw' && hw'[r] == contents[r / cfg.stride])
    && (forall r :: !Target(cfg, contents, lo, hi, r) ==> SameAt(hw, hw', r))
  }

  ghost predicate InDone(done: seq<Ref>, blk: Blocks, stride: int, u: int)
    requires 1 <= stride
  {
    exists x :: x in done && x in blk && Covers(blk[x], stride, u)
  }

  /** The same, with only the blocks in `done` replayed. */
  ghost predicate SyncedSoFar(cfg: Config, contents: map<int, int>, lo: int, hi: int, done: seq<Ref>, blk: Blocks,
                              hw: Hardware, hw': Hardware)
    requires 1 <= cfg.stride
  {
    && (forall r :: Target(cfg, contents, lo, hi, r) && InDone(done, blk, cfg.stride, r / cfg.stride) ==>
          r in hw' && hw'[r] == contents[r / cfg.stride])
    && (forall r :: !(Target(cfg, contents, lo, hi, r) && InDone(done, blk, cfg.stride, r / cfg.stride)) ==>
           SameAt(hw, hw', r))
  }

  ghost predicate WantedAt(cfg: Config, b: Block, start: int, end: int, r: int)
    requires Syncable(cfg, b, start, end)
  {
    exists i :: start <= i < end && Wanted(cfg, b, i) && RegOf(b, cfg.stride, i) == r
  }

  /** The effect of replaying one block: each wanted register gets its value, nothing else changes. */
  lemma {:induction false} BlockEffect(cfg: Config, b: Block, start: int, end: int, hw: Hardware)
    requires Syncable(cfg, b, start, end)
    ensures var hw' := Apply(hw, BlockLog(cfg, b, start, end));
      && (forall i :: start <= i < end && Wanted(cfg, b, i) ==>
            RegOf(b, cfg.stride, i) in hw' && hw'[RegOf(b, cfg.stride, i)] == b.vals[i])
      && (forall r :: !WantedAt(cfg, b, start, end, r) ==> SameAt(hw, hw', r))
    decreases end - start
  {
    if start < end {
      var k := end - 1;
      BlockEffect(cfg, b, start, k, hw);
      var log := BlockLog(cfg, b, start, k);
      var reg := RegOf(b, cfg.stride, k);
      hide Wanted;
      if Wanted(cfg, b, k) {
        assert (log + [Update(reg, b.vals[k])])[..|log|] == log;
        forall i | start <= i < k ensures RegOf(b, cfg.stride, i) != reg { MulStrict(i, k, cfg.stride); }
      }
      forall r | !WantedAt(cfg, b, start, end, r) ensures !WantedAt(cfg, b, start, k, r) {}
    }
  }

  /** Register r, seen through the block that covers it. */
  lemma AtBlock(cfg: Config, b: Block, r: int)
    requires Syncable(cfg, b, 0, b.len) && r % cfg.stride == 0 && Covers(b, cfg.stride, r / cfg.stride)
    ensures var i := r / cfg.stride - Lo(b, cfg.stride); 0 <= i < b.len && RegOf(b, cfg.stride, i) == r
  {
    DivMod(r, cfg.stride);
    DivMod(b.base, cfg.stride);
    var l, i := b.base / cfg.stride, r / cfg.stride - b.base / cfg.stride;
    assert (l + i) * cfg.stride == l * cfg.stride + i * cfg.stride;
  }

  /** Replaying block s[k] extends SyncedSoFar by one block. */
  lemma SyncStep(cfg: Config, s: seq<Ref>, k: int, blk: Blocks, contents: map<int, int>, lo: int, hi: int, start: int,
                 end: int, hw0: Hardware, hw: Hardware, hw': Hardware)
    requires ConfigOk(cfg) && CacheOk(s, blk, cfg.stride, contents) && 0 <= k < |s| && DefaultsIn(cfg, hw0)
    requires forall i, j :: 0 <= i < j < |s| ==> s[i] != s[j]
    requires SyncedSoFar(cfg, contents, lo, hi, s[..k], blk, hw0, hw)
    requires 0 <= start <= end <= blk[s[k]].len && Part(blk[s[k]], cfg.stride, start, end, lo, hi)
    requires Syncable(cfg, blk[s[k]], start, end) && hw' == Apply(hw, BlockLog(cfg, blk[s[k]], start, end))
    ensures SyncedSoFar(cfg, contents, lo, hi, s[..k + 1], blk, hw0, hw')
  {
    var b := blk[s[k]];
    BlockEffect(cfg, b, start, end, hw);
    forall r
      ensures Target(cfg, contents, lo, hi, r) && InDone(s[..k + 1], blk, cfg.stride, r / cfg.stride) ==>
                r in hw' && hw'[r] == contents[r / cfg.stride]
      ensures !(Target(cfg, contents, lo, hi, r) && InDone(s[..k + 1], blk, cfg.stride, r / cfg.stride)) ==>
                SameAt(hw0, hw', r)
    {
      SyncStepAt(cfg, s, k, blk, contents, lo, hi, start, end, hw0, hw, hw', r);
    }
  }

  lemma SyncStepAt(cfg: Config, s: seq<Ref>, k: int, blk: Blocks, contents: map<int, int>, lo: int, hi: int,
                   start: int, end: int, hw0: Hardware, hw: Hardware, hw': Hardware, r: int)
    requires ConfigOk(cfg) && CacheOk(s, blk, cfg.stride, contents) && 0 <= k < |s| && DefaultsIn(cfg, hw0)
    requires forall i, j :: 0 <= i < j < |s| ==> s[i] != s[j]
    requires SyncedSoFar(cfg, contents, lo, hi, s[..k], blk, hw0, hw)
    requires 0 <= start <= end <= blk[s[k]].len && Part(blk[s[k]], cfg.stride, start, end, lo, hi)
    requires Syncable(cfg, blk[s[k]], start, end)
    requires forall i :: start <= i < end && Wanted(cfg, blk[s[k]], i) ==>
            RegOf(blk[s[k]], cfg.stride, i) in hw' && hw'[RegOf(blk[s[k]], cfg.stride, i)] == blk[s[k]].vals[i]
    requires forall r :: !WantedAt(cfg, blk[s[k]], start, end, r) ==> SameAt(hw, hw', r)
    ensures Target(cfg, contents, lo, hi, r) && InDone(s[..k + 1], blk, cfg.stride, r / cfg.stride) ==>
              r in hw' && hw'[r] == contents[r / cfg.stride]
    ensures !(Target(cfg, contents, lo, hi, r) && InDone(s[..k + 1], blk, cfg.stride, r / cfg.stride)) ==>
              SameAt(hw0, hw', r)
  {
    var b, u := blk[s[k]], r / cfg.stride;
    assert s[k] in s;
    DoneStep(s, k, blk, cfg.stride, u);
    if r % cfg.stride == 0 && Covers(b, cfg.stride, u) && lo <= u <= hi {
      NotDoneBefore(s, k, blk, cfg.stride, u);
      AtBlock(cfg, b, r);
      var i := u - Lo(b, cfg.stride);
      assert start <= i < end;
      OwnRegister(cfg, b, start, end, i, r);
      HereAt(cfg, s, blk, contents, s[k], i, r);
    } else {
      ElsewhereAt(cfg, b, start, end, lo, hi, r);
    }
  }

  lemma DoneStep(s: seq<Ref>, k: int, blk: Blocks, stride: int, u: int)
    requires 1 <= stride && 0 <= k < |s| && s[k] in blk
    ensures InDone(s[..k + 1], blk, stride, u) <==> InDone(s[..k], blk, stride, u) || Covers(blk[s[k]], stride, u)
  {
    assert s[..k + 1] == s[..k] + [s[k]];
    if Covers(blk[s[k]], stride, u) {
      assert s[..k + 1][k] == s[k];
      assert InDone(s[..k + 1], blk, stride, u);
    }
    if InDone(s[..k], blk, stride, u) {
      var x :| x in s[..k] && x in blk && Covers(blk[x], stride, u);
      assert x in s[..k + 1];
      assert InDone(s[..k + 1], blk, stride, u);
    }
    if InDone(s[..k + 1], blk, stride, u) {
      var x :| x in s[..k + 1] && x in blk && Covers(blk[x], stride, u);
      if x != s[k] {
        assert x in s[..k];
        assert InDone(s[..k], blk, stride, u);
      }
    }
  }

  lemma NotDoneBefore(s: seq<Ref>, k: int, blk: Blocks, stride: int, u: int)
    requires 1 <= stride && Stored(s, blk) && Ascending(s, blk, stride) && 0 <= k < |s| && Covers(blk[s[k]], stride, u)
    requires forall i, j :: 0 <= i < j < |s| ==> s[i] != s[j]
    ensures !InDone(s[..k], blk, stride, u)
  {
    forall x | x in s[..k] ensures !Covers(blk[x], stride, u) {
      var i :| 0 <= i < k && s[..k][i] == x;
      assert s[i] == x && s[k] in s && x in s;
      assert Hi(blk[s[i]], stride) <= Lo(blk[s[k]], stride);
    }
  }

  /** Only one index of a block has a given register. */
  lemma OwnRegister(cfg: Config, b: Block, start: int, end: int, i: int, r: int)
    requires Syncable(cfg, b, start, end) && start <= i < end && RegOf(b, cfg.stride, i) == r
    ensures WantedAt(cfg, b, start, end, r) <==> Wanted(cfg, b, i)
  {
    hide Wanted;
    forall j | start <= j < end && RegOf(b, cfg.stride, j) == r ensures j == i {
      Compare(i, j, cfg.stride);
      Compare(j, i, cfg.stride);
    }
  }

  /** A cached register that is not wanted is unwriteable or holds its hardware default. */
  lemma HereAt(cfg: Config, s: seq<Ref>, blk: Blocks, contents: map<int, int>, x: Ref, i: int, r: int)
    requires ConfigOk(cfg) && CacheOk(s, blk, cfg.stride, contents) && x in s && 0 <= i < blk[x].len
    requires RegOf(blk[x], cfg.stride, i) == r && r / cfg.stride == Lo(blk[x], cfg.stride) + i
    requires Syncable(cfg, blk[x], 0, blk[x].len)
    ensures r / cfg.stride in contents <==> At(blk[x].present, i)
    ensures r / cfg.stride in contents ==> contents[r / cfg.stride] == blk[x].vals[i]
    ensures Wanted(cfg, blk[x], i) ==> At(blk[x].present, i) && cfg.writeable(r)
    ensures At(blk[x].present, i) && cfg.writeable(r) && !Wanted(cfg, blk[x], i) ==>
              cfg.noSyncDefaults && Default(r, blk[x].vals[i]) in cfg.defaults
  {
    hide At, NeedsSync;
    assert Covers(blk[x], cfg.stride, r / cfg.stride);
    RegInRange(cfg, blk[x], i);
  }

  lemma ElsewhereAt(cfg: Config, b: Block, start: int, end: int, lo: int, hi: int, r: int)
    requires Syncable(cfg, b, start, end) && Part(b, cfg.stride, start, end, lo, hi)
    requires !(r % cfg.stride == 0 && Covers(b, cfg.stride, r / cfg.stride) && lo <= r / cfg.stride <= hi)
    ensures !WantedAt(cfg, b, start, end, r)
  {
    hide Wanted;
    forall i | start <= i < end ensures RegOf(b, cfg.stride, i) != r {
      RegInRange(cfg, b, i);
      assert Covers(b, cfg.stride, Lo(b, cfg.stride) + i);
    }
  }

  lemma SyncDone(cfg: Config, s: seq<Ref>, k: int, blk: Blocks, contents: map<int, int>, lo: int, hi: int,
                 hw0: Hardware, hw: Hardware)
    requires 1 <= cfg.stride && CacheOk(s, blk, cfg.stride, contents) && 0 <= k <= |s|
    requires SyncedSoFar(cfg, contents, lo, hi, s[..k], blk, hw0, hw)
    requires k < |s| ==> s[k] in blk && Lo(blk[s[k]], cfg.stride) > hi
    ensures Synced(cfg, contents, lo, hi, hw0, hw)
  {
    forall r | Target(cfg, contents, lo, hi, r) ensures InDone(s[..k], blk, cfg.stride, r / cfg.stride) {
      var x :| x in s && Covers(blk[x], cfg.stride, r / cfg.stride);
      var j :| 0 <= j < |s| && s[j] == x;
      if k <= j { BeyondLast(s, k, j, blk, cfg.stride, hi); }
      assert j < k;
      assert s[..k][j] == x;
    }
  }

  /** The block fills the register space, lies in the range and is to be replayed by one raw write. */
  ghost predicate Refused(cfg: Config, raw: bool, b: Block, lo: int, hi: int) {
    && raw && Syncable(cfg, b, 0, b.len) && AllSpace(cfg, b, 0, b.len)
    && lo <= Lo(b, cfg.stride) && Hi(b, cfg.stride) - 1 <= hi
  }

  ghost predicate NoneRefused(cfg: Config, raw: bool, s: seq<Ref>, blk: Blocks, lo: int, hi: int) {
    forall x :: x in s && x in blk ==> !Refused(cfg, raw, blk[x], lo, hi)
  }

  /** A block is refused exactly when the part of it in the range is. */
  lemma RefusedPart(cfg: Config, raw: bool, b: Block, lo: int, hi: int, hit: bool, start: int, end: int)
    requires Syncable(cfg, b, 0, b.len)
    requires !hit ==> forall u :: Covers(b, cfg.stride, u) ==> !(lo <= u <= hi)
    requires hit ==> 0 <= start <= end <= b.len && Part(b, cfg.stride, start, end, lo, hi)
    ensures Refused(cfg, raw, b, lo, hi) <==> hit && raw && AllSpace(cfg, b, start, end)
  {
    PartWhole(cfg, b, start, end, lo, hi, hit);
    hide AllSpace, Part, Covers;
  }

  lemma SomeRefused(cfg: Config, raw: bool, s: seq<Ref>, k: int, blk: Blocks, lo: int, hi: int)
    requires 0 <= k < |s| && s[k] in blk && Refused(cfg, raw, blk[s[k]], lo, hi)
    ensures !NoneRefused(cfg, raw, s, blk, lo, hi)
  {
    hide Refused;
    var x := s[k];
    assert x in s;
  }

  /** A block that fills the register space comes first. */
  lemma OnlyBlock(cfg: Config, raw: bool, s: seq<Ref>, k: int, blk: Blocks, contents: map<int, int>, lo: int, hi: int)
    requires CacheOk(s, blk, cfg.stride, contents) && 0 <= k < |s| && Refused(cfg, raw, blk[s[k]], lo, hi)
    ensures k == 0
  {
    hide Represents, Wanted;
    var x := s[k];
    RunLength(blk[x], cfg.stride, 0, blk[x].len);
    if k > 0 {
      var y := s[0];
      assert y in s;
      AscendingAt(s, blk, cfg.stride, 0, k);
      BlockRange(blk[y], cfg.stride);
      DivMonotone(0, blk[y].base, cfg.stride);
    }
  }

  lemma NotRefusedStep(cfg: Config, raw: bool, s: seq<Ref>, k: int, blk: Blocks, lo: int, hi: int)
    requires 0 <= k < |s| && s[k] in blk && !Refused(cfg, raw, blk[s[k]], lo, hi)
    requires NoneRefused(cfg, raw, s[..k], blk, lo, hi)
    ensures NoneRefused(cfg, raw, s[..k + 1], blk, lo, hi)
  {
    hide Refused;
    PrefixStep(s, k);
  }

  /** What the loop has not visited lies above the range. */
  lemma NotRefusedBeyond(cfg: Config, raw: bool, s: seq<Ref>, k: int, blk: Blocks, contents: map<int, int>, lo: int,
                         hi: int)
    requires CacheOk(s, blk, cfg.stride, contents) && 0 <= k <= |s| && NoneRefused(cfg, raw, s[..k], blk, lo, hi)
    requires k < |s| ==> s[k] in blk && Lo(blk[s[k]], cfg.stride) > hi
    ensures NoneRefused(cfg, raw, s, blk, lo, hi)
  {
    hide Represents, AllSpace;
    forall x | x in s ensures !Refused(cfg, raw, blk[x], lo, hi) {
      var j :| 0 <= j < |s| && s[j] == x;
      if j < k {
        assert s[..k][j] == x;
      } else {
        BeyondLast(s, k, j, blk, cfg.stride, hi);
        BlockRange(blk[x], cfg.stride);
      }
    }
  }

  /** struct regmap: the cache, the hardware behind it and the flags a sync works with. */
  class RegMap {
    const cache: RbTreeCache
    const defaults: seq<Default>
    const writeable: int -> bool
    const patch: seq<Update>
    const maxRegister: int
    const rawWrites: bool
    var hw: Hardware
    var bypass: bool
    var dirty: bool
    var noSyncDefaults: bool
    var asynchronous: bool

    ghost predicate Valid()
      reads this, cache, cache.tree
    {
      && cache.Valid() && cache.stride < LIMIT && 0 <= maxRegister < LIMIT
      && forall i :: 0 <= i < |defaults| ==> 0 <= defaults[i].reg < LIMIT
    }

    function Cfg(): Config
      reads this
    {
      Config(cache.stride, noSyncDefaults, defaults, writeable)
    }

    constructor (stride: int, wordSize: int, defaults: seq<Default>, writeable: int -> bool, patch: seq<Update>,
                 maxRegister: int, rawWrites: bool, hw: Hardware)
      requires 1 <= stride < LIMIT && 1 <= wordSize && 0 <= maxRegister < LIMIT
      requires forall i :: 0 <= i < |defaults| ==> 0 <= defaults[i].reg < LIMIT
      ensures Valid() && fresh(cache) && fresh(cache.tree) && cache.contents == map[] && this.hw == hw && !dirty
    {
      cache := new RbTreeCache(stride, wordSize);
      this.defaults, this.writeable, this.patch := defaults, writeable, patch;
      this.maxRegister, this.rawWrites := maxRegister, rawWrites;
      this.hw, bypass, dirty, noSyncDefaults, asynchronous := hw, false, false, false, false;
    }

    /** regcache_mark_dirty */
    method MarkDirty()
      modifies this`dirty, this`noSyncDefaults
      ensures dirty && noSyncDefaults
    {
      dirty, noSyncDefaults := true, true;
    }

    /**
     regcache_sync_block: raw writes when the bus can do them.  What the writes make of cache_bypass does not show,
     since both callers put it back.
     */
    method SyncBlock(b: Block, start: int, end: int) returns (ok: bool)
      requires Syncable(Cfg(), b, start, end)
      modifies this`hw
      ensures ok <==> !(rawWrites && AllSpace(Cfg(), b, start, end))
      ensures hw == if ok then Apply(old(hw), BlockLog(Cfg(), b, start, end)) else old(hw)
    {
      hide AllSpace, Apply;
      if rawWrites {
        var writes;
        writes, ok := SyncBlockRaw(Cfg(), b, start, end);
        if ok {
          hw := Apply(hw, Flatten(writes, cache.stride));
        }
      } else {
        hw := SyncBlockSingle(Cfg(), b, start, end, hw);
        ok := true;
      }
    }

    /** The body of the loop of regcache_rbtree_sync, for block k in register order. */
    method SyncNode(node: Ref, min: int, max: int, ghost first: int, ghost s: seq<Ref>, ghost k: int,
                    ghost hw0: Hardware)
      returns (ok: bool)
      requires Valid() && 0 <= min <= max && DefaultsIn(Cfg(), hw0)
      requires s == InOrder(cache.tree.shape) && 0 <= k < |s| && node == s[k] && cache.blk[node].base <= max
      requires DropsFrom(cache.blk[node], cache.stride, min, first)
      requires forall i, j :: 0 <= i < j < |s| ==> s[i] != s[j]
      requires SyncedSoFar(Cfg(), cache.contents, first, max / cache.stride, s[..k], cache.blk, hw0, hw)
      requires NoneRefused(Cfg(), rawWrites, s[..k], cache.blk, first, max / cache.stride)
      modifies this`hw
      ensures ok ==>
                SyncedSoFar(Cfg(), cache.contents, first, max / cache.stride, s[..k + 1], cache.blk, hw0,
                    hw)
      ensures ok ==> NoneRefused(Cfg(), rawWrites, s[..k + 1], cache.blk, first, max / cache.stride)
      ensures !ok ==> !NoneRefused(Cfg(), rawWrites, s, cache.blk, first, max / cache.stride)
      ensures !ok ==> hw == old(hw) && k == 0
    {
      hide Represents, RedBlack, Ids, InOrder, Ascending, Covers, BlockLog, Apply, SyncedSoFar, Target;
      hide NoneRefused, Refused, AllSpace, Lo, Hi, BlockOk, DefaultsIn, Distinct, Part, DropsFrom;
      ghost var lo, hi := first, max / cache.stride;
      assert s[k] in s;
      var b := cache.blk[node];
      BlockFacts(b, cache.stride);
      var hit, start, end := Overlapping(b, cache.stride, min, max, lo);
      ghost var hw1 := hw;
      RefusedPart(Cfg(), rawWrites, b, lo, hi, hit, start, end);
      ok := true;
      if hit {
        ok := SyncBlock(b, start, end);
        if !ok {
          SomeRefused(Cfg(), rawWrites, s, k, cache.blk, lo, hi);
          OnlyBlock(Cfg(), rawWrites, s, k, cache.blk, cache.contents, lo, hi);
          return;
        }
        SyncStep(Cfg(), s, k, cache.blk, cache.contents, lo, hi, start, end, hw0, hw1, hw);
      } else {
        SkipStep(Cfg(), s, k, cache.blk, cache.contents, lo, hi, hw0, hw);
      }
      NotRefusedStep(Cfg(), rawWrites, s, k, cache.blk, lo, hi);
    }

    /**
     regcache_rbtree_sync: replay the blocks that meet [min, max], in register order.  An unaligned min takes the
     register below it along under the same condition as in regcache_rbtree_drop.
     */
    method SyncTree(min: int, max: int) returns (ok: bool)
      requires Valid() && 0 <= min <= max && DefaultsIn(Cfg(), hw)
      modifies this`hw
      ensures var s := InOrder(cache.tree.shape);
        var first := FirstDropped(s, cache.blk, cache.stride, min);
        && (ok ==> Synced(Cfg(), cache.contents, first, max / cache.stride, old(hw), hw))
        && (!ok ==> hw == old(hw))
        && (ok <==> NoneRefused(Cfg(), rawWrites, s, cache.blk, first, max / cache.stride))
      ensures min % cache.stride == 0 ==>
                FirstDropped(InOrder(cache.tree.shape), cache.blk, cache.stride, min) == min / cache.stride
    {
      hide Represents, BlockOk, RedBlack, Ids, InOrder, Ascending, Covers, BlockLog, Apply, SyncedSoFar, Synced, Target;
      hide NoneRefused, Refused, AllSpace, Hi, AllDropFrom, DropsFrom, Across;
      ghost var s := InOrder(cache.tree.shape);
      ghost var lo, hi := FirstDropped(s, cache.blk, cache.stride, min), max / cache.stride;
      FirstDroppedFits(s, cache.blk, cache.stride, min, cache.contents);
      var node := cache.tree.First();
      ghost var k := 0;
      FirstIndex(cache.tree.shape, cache.tree.mem, cache.tree.root);
      FocusDistinct(cache.tree.mem, cache.tree.root, cache.tree.shape);
      InOrderInjective(cache.tree.shape);
      SyncNone(Cfg(), rawWrites, cache.contents, lo, hi, s, cache.blk, hw);
      hide Distinct;
      while node != NIL
        invariant 0 <= k <= |s| && NIL !in s && s == InOrder(cache.tree.shape)
        invariant node == if k < |s| then s[k] else NIL
        invariant SyncedSoFar(Cfg(), cache.contents, lo, hi, s[..k], cache.blk, old(hw), hw)
        invariant NoneRefused(Cfg(), rawWrites, s[..k], cache.blk, lo, hi) && (k == 0 ==> hw == old(hw))
        decreases |s| - k
      {
        assert s[k] in s && s == InOrder(cache.tree.shape);
        var b := cache.blk[node];
        BlockFacts(b, cache.stride);
        FloorTests(cache.stride, max, b.base, b.len);
        if b.base > max {
          break;
        }
        DropsFromAt(s, cache.blk, cache.stride, min, lo, node);
        ok := SyncNode(node, min, max, lo, s, k, old(hw));
        if !ok {
          return;
        }
        NodeListed(cache.tree.shape, node);
        node := cache.tree.Next(node);
        FollowsAt(s, k, node);
        k := k + 1;
      }
      SyncDone(Cfg(), s, k, cache.blk, cache.contents, lo, hi, old(hw), hw);
      NotRefusedBeyond(Cfg(), rawWrites, s, k, cache.blk, cache.contents, lo, hi);
      ok := true;
    }

    /**
     regcache_sync: hardware ends up equal to the cache on every cached writeable register up to
     max_register, nothing else changes, and the flags are restored.  It fails exactly when one block fills the
     register space and all of it is to be replayed by one raw write; the map then stays dirty.
     */
    method Sync() returns (ok: bool)
      requires Valid() && DefaultsIn(Cfg(), Apply(hw, patch))
      modifies this
      ensures Valid() && bypass == old(bypass) && !noSyncDefaults && !asynchronous && dirty == (old(dirty) && !ok)
      ensures !old(dirty) ==> ok && hw == old(hw)
      ensures old(dirty) && ok ==>
                Synced(old(Cfg()), cache.contents, 0, maxRegister / cache.stride, old(Apply(hw, patch)), hw)
      ensures old(dirty) && !ok ==> hw == old(Apply(hw, patch))
      ensures old(dirty) ==>
                var s, hi := InOrder(cache.tree.shape), maxRegister / cache.stride;
                ok <==> NoneRefused(old(Cfg()), rawWrites, s, cache.blk, 0, hi)
    {
      hide Synced, Apply, DefaultsIn, NoneRefused;
      var saved := bypass;
      ok := true;
      if dirty {
        asynchronous := true;
        bypass := true;
        var i := 0;
        NoUpdates(hw);
        while i < |patch|
          invariant 0 <= i <= |patch| && hw == Apply(old(hw), patch[..i])
          invariant Valid() && dirty && bypass && noSyncDefaults == old(noSyncDefaults) && ok
        {
          OneUpdate(old(hw), patch, i);
          hw := hw[patch[i].reg := patch[i].val];
          i := i + 1;
        }
        assert patch[..|patch|] == patch;
        bypass := false;
        ok := SyncTree(0, maxRegister);
        if ok {
          dirty := false;
        }
      }
      asynchronous := false;
      bypass := saved;
      noSyncDefaults := false;
    }

    /** regcache_sync_region: the same for a range, without the patch; the map stays dirty. */
    method SyncRegion(min: int, max: int) returns (ok: bool)
      requires Valid() && 0 <= min <= max && DefaultsIn(Cfg(), hw)
      modifies this
      ensures Valid() && bypass == old(bypass) && !noSyncDefaults && !asynchronous && dirty == old(dirty)
      ensures !old(dirty) ==> ok && hw == old(hw)
      ensures old(dirty) ==>
        var s := InOrder(cache.tree.shape);
        var first := FirstDropped(s, cache.blk, cache.stride, min);
        && (ok ==> Synced(old(Cfg()), cache.contents, first, max / cache.stride, old(hw), hw))
        && (!ok ==> hw == old(hw))
        && (ok <==> NoneRefused(old(Cfg()), rawWrites, s, cache.blk, first, max / cache.stride))
    {
      hide Synced, DefaultsIn, NoneRefused, FirstDropped;
      var saved := bypass;
      ok := true;
      if dirty {
        asynchronous := true;
        ok := SyncTree(min, max);
      }
      bypass := saved;
      asynchronous := false;
      noSyncDefaults := false;
    }
  }

  /** A part of a block that is the whole space is the block. */
  lemma PartWhole(cfg: Config, b: Block, start: int, end: int, lo: int, hi: int, hit: bool)
    requires Syncable(cfg, b, 0, b.len)
    requires !hit ==> forall u :: Covers(b, cfg.stride, u) ==> !(lo <= u <= hi)
    requires hit ==> 0 <= start <= end <= b.len && Part(b, cfg.stride, start, end, lo, hi)
    ensures hit && AllSpace(cfg, b, start, end) ==>
              start == 0 && end == b.len && lo <= Lo(b, cfg.stride) && Hi(b, cfg.stride) - 1 <= hi
    ensures AllSpace(cfg, b, 0, b.len) && lo <= Lo(b, cfg.stride) && Hi(b, cfg.stride) - 1 <= hi ==>
              hit && start == 0 && end == b.len
  {
    hide Wanted;
    BlockRange(b, cfg.stride);
    var l, h := Lo(b, cfg.stride), Hi(b, cfg.stride);
    assert Covers(b, cfg.stride, l) && Covers(b, cfg.stride, h - 1);
    if hit {
      if FullCircle(cfg.stride, end - start) {
        NoCircle(cfg.stride);
        RunLength(b, cfg.stride, start, end);
      }
    }
  }

  lemma PrefixStep(s: seq<Ref>, k: int)
    requires 0 <= k < |s|
    ensures forall x :: x in s[..k + 1] <==> x in s[..k] || x == s[k]
  {
    assert s[..k + 1] == s[..k] + [s[k]];
  }

  /** Where the raw form fails the single form writes every register. */
  lemma {:induction false} AllSpaceLog(cfg: Config, b: Block, start: int, end: int)
    requires Syncable(cfg, b, start, end) && forall i :: start <= i < end ==> Wanted(cfg, b, i)
    ensures |BlockLog(cfg, b, start, end)| == end - start
    decreases end - start
  {
    hide Wanted;
    if start < end { AllSpaceLog(cfg, b, start, end - 1); }
  }

  /**
   Stride 2^27, registers 0 to 31 in one block, all written and without defaults: the single form writes all 32, the
   raw form takes them for a run of none and fails.
   */
  lemma FullCircleExample(b: Block, cfg: Config)
    requires cfg.stride == 0x800_0000 && !cfg.noSyncDefaults && cfg.defaults == [] && forall r :: cfg.writeable(r)
    requires BlockOk(b, cfg.stride) && b.base == 0 && b.len == 32 && forall i :: 0 <= i < 32 ==> At(b.present, i)
    ensures Syncable(cfg, b, 0, b.len) && AllSpace(cfg, b, 0, b.len) && |BlockLog(cfg, b, 0, b.len)| == 32
    ensures (RegOf(b, cfg.stride, b.len) % LIMIT - RegOf(b, cfg.stride, 0)) % LIMIT / cfg.stride == 0
  {
    hide At, BlockOk, BlockLog;
    AllSpaceLog(cfg, b, 0, b.len);
  }

  lemma NoUpdates(hw: Hardware)
    ensures Apply(hw, []) == hw
  {
  }

  lemma OneUpdate(hw: Hardware, log: seq<Update>, i: int)
    requires 0 <= i < |log|
    ensures Apply(hw, log[..i + 1]) == Apply(hw, log[..i])[log[i].reg := log[i].val]
  {
    assert log[..i + 1][..i] == log[..i];
  }

  lemma SyncNone(cfg: Config, raw: bool, contents: map<int, int>, lo: int, hi: int, s: seq<Ref>, blk: Blocks,
                 hw: Hardware)
    requires 1 <= cfg.stride
    ensures NoneRefused(cfg, raw, s[..0], blk, lo, hi)
    ensures SyncedSoFar(cfg, contents, lo, hi, s[..0], blk, hw, hw)
  {
  }

  lemma SkipStep(cfg: Config, s: seq<Ref>, k: int, blk: Blocks, contents: map<int, int>, lo: int, hi: int,
                 hw0: Hardware, hw: Hardware)
    requires 1 <= cfg.stride && 0 <= k < |s| && s[k] in blk
    requires SyncedSoFar(cfg, contents, lo, hi, s[..k], blk, hw0, hw)
    requires forall u :: Covers(blk[s[k]], cfg.stride, u) ==> !(lo <= u <= hi)
    ensures SyncedSoFar(cfg, contents, lo, hi, s[..k + 1], blk, hw0, hw)
  {
    forall r ensures Target(cfg, contents, lo, hi, r) ==>
                       (InDone(s[..k + 1], blk, cfg.stride, r / cfg.stride) <==>
                           InDone(s[..k], blk, cfg.stride, r / cfg.stride)) {
      DoneStep(s, k, blk, cfg.stride, r / cfg.stride);
    }
  }
}

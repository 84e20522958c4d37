/**
  Allocation in the shared eden and in thread-local allocation buffers, as emitted by
  eden_allocate, tlab_allocate and tlab_refill, for any number of threads in any
  interleaving of their accesses to the eden top. The chunks taken from eden are logged in the
  order of the winning compare-and-swaps; the code does not read the log.
 */
module EdenTlab {
  import opened Words
  import opened Wrappers

  type Tid = nat

  const ALIGN: int := 8

  /** Eden, the constants of the emitted code, and how large requests get; sizes in bytes, `header` and `reserve` in
      words of `word` bytes. All requests to eden are below `edenBound`, those to buffers below `tlabBound`; the code
      itself has no such limits. */
  datatype Env = Env(bottom: int, end: int, word: int, header: int, reserve: int, wasteIncrement: int,
                     edenBound: int, tlabBound: int)

  ghost predicate ValidEnv(e: Env)
  {
    && 0 < e.bottom <= e.end && e.bottom % ALIGN == 0
    && (e.word == 4 || e.word == 8)
    && 0 < e.header <= e.reserve && (e.reserve * e.word) % ALIGN == 0
  }

  function ReserveBytes(e: Env): int {
    e.reserve * e.word
  }

  datatype Block = Block(start: int, size: int)

  /** The use of a chunk of eden: one object, a buffer not yet installed, the buffer in use by its owner,
      or a replaced buffer. */
  datatype Content =
    | Object
    | Pending
    | Active(objs: seq<Block>)
    | Retired(objs: seq<Block>, filler: Block)

  datatype Chunk = Chunk(owner: Tid, block: Block, content: Content)

  /** The fields of a ThreadLocalAllocBuffer; `chunk` is its place in the log and is not read by the code. */
  datatype Tlab = Tlab(start: int, top: int, end: int, wasteLimit: int, chunk: Option<nat>)

  predicate NoTlab(t: Tlab) {
    t.chunk == None && t.top == t.end == 0
  }

  /** What an eden allocation is for. */
  datatype Purpose = ForObject | ForTlab

  datatype Phase =
    | Idle
    | EndLoaded(size: int, why: Purpose, end: int)
    | AtRetry(size: int, why: Purpose, end: int, obj: int)
    | AtCas(size: int, why: Purpose, obj: int, newTop: int)
    | Installing(size: int, obj: int, chunk: nat)

  datatype Thread = Thread(phase: Phase, tlab: Tlab)

  datatype State = State(top: int, chunks: seq<Chunk>, threads: map<Tid, Thread>)

  datatype Action = EdenAllocate(size: int) | TlabAllocate(size: int) | TlabRefill(size: int) | Advance

  // --------------------------------------------------------------------------
  // The comparisons of the emitted code test the 32-bit condition codes

  /** cmp(free, size); br(lessUnsigned, slow_case) falls through. */
  predicate EdenFits(free: int, size: int) {
    Low32(free) >= Low32(size)
  }

  /** cmp(free, size); br(less, slow_case) falls through. */
  predicate TlabFits(free: int, size: int) {
    Signed(free) >= Signed(size)
  }

  /** The test of eden_allocate never passes too large a request, exactly for requests below 4 GB. */
  lemma EdenTestExact(size: int)
    requires size >= 0
    ensures (forall free :: free >= 0 && EdenFits(free, size) ==> free >= size) <==> size < W32
  {
    if size < W32 {
      forall free | free >= 0 && EdenFits(free, size) ensures free >= size {
        assert free >= Low32(free);
      }
    } else {
      var free := Low32(size);
      assert free >= 0 && EdenFits(free, size) && free < size;
    }
  }

  /** The test of tlab_allocate never passes too large a request, exactly for requests below 2 GB. */
  lemma TlabTestExact(size: int)
    requires size > 0
    ensures (forall free :: free >= 0 && TlabFits(free, size) ==> free >= size) <==> size < HALF32
  {
    if size < HALF32 {
      forall free | free >= 0 && TlabFits(free, size) ensures free >= size {
        assert free >= Low32(free);
      }
    } else {
      var free := if Signed(size) < 0 then 0 else Signed(size);
      assert free >= 0 && TlabFits(free, size) && free < size;
    }
  }

  // --------------------------------------------------------------------------
  // The filler written over the rest of a buffer

  /** The length stored in the int array that fills [top, end + reserve). */
  function FillerLength(e: Env, t: Tlab): int
    requires e.word > 0
  {
    ((t.end - t.top) / e.word - e.header + e.reserve) * (e.word / 4)
  }

  /** The array object at the top of a discarded buffer. */
  function Filler(e: Env, t: Tlab): Block
    requires e.word > 0
  {
    Block(t.top, e.header * e.word + 4 * FillerLength(e, t))
  }

  lemma FillerReachesEnd(e: Env, t: Tlab)
    requires ValidEnv(e) && t.top <= t.end && (t.end - t.top) % ALIGN == 0
    ensures FillerLength(e, t) >= 0
    ensures Filler(e, t).start + Filler(e, t).size == t.end + ReserveBytes(e)
  {
    var free := t.end - t.top;
    if e.word == 4 {
      Refill4(free, e.header, e.reserve);
    } else {
      Refill8(free, e.header, e.reserve);
    }
  }

  lemma Refill4(free: int, header: int, reserve: int)
    requires free >= 0 && free % 8 == 0
    ensures header * 4 + 4 * ((free / 4 - header + reserve) * (4 / 4)) == free + reserve * 4
  {
  }

  lemma Refill8(free: int, header: int, reserve: int)
    requires free >= 0 && free % 8 == 0
    ensures header * 8 + 4 * ((free / 8 - header + reserve) * (8 / 4)) == free + reserve * 8
  {
  }

  // --------------------------------------------------------------------------
  // The steps

  datatype Effect = Effect(top: int, chunks: seq<Chunk>, thread: Thread)

  /** The buffer of the thread is replaced by a new one at obj. */
  function Install(e: Env, s: State, th: Thread, size: int, obj: int, k: nat): Effect
    requires e.word > 0
  {
    var old' := th.tlab;
    var cs := if old'.chunk.Some? && old'.chunk.value < |s.chunks| && s.chunks[old'.chunk.value].content.Active? then
                var c := s.chunks[old'.chunk.value];
                s.chunks[old'.chunk.value := c.(content := Retired(c.content.objs, Filler(e, old')))]
              else s.chunks;
    var cs' := if k < |cs| then cs[k := cs[k].(content := Active([]))] else cs;
    Effect(s.top, cs', Thread(Idle, Tlab(obj, obj, obj + size - ReserveBytes(e), old'.wasteLimit, Some(k))))
  }

  /** The buffer with one more object at its top. */
  function Extended(c: Chunk, b: Block): Chunk
    requires c.content.Active?
  {
    c.(content := Active(c.content.objs + [b]))
  }

  function Allocated(s: State, tlab: Tlab, size: int): seq<Chunk> {
    if tlab.chunk.Some? && tlab.chunk.value < |s.chunks| && s.chunks[tlab.chunk.value].content.Active? then
      s.chunks[tlab.chunk.value := Extended(s.chunks[tlab.chunk.value], Block(tlab.top, size))]
    else s.chunks
  }

  /** A positive multiple of the object alignment, below the bound. */
  predicate GoodRequest(size: int, bound: int) {
    0 < size < bound && size % ALIGN == 0
  }

  function ThreadStep(e: Env, s: State, t: Tid, th: Thread, a: Action): Option<Effect>
    requires e.word > 0
  {
    match (th.phase, a)
    case (Idle, EdenAllocate(size)) =>
      if !GoodRequest(size, e.edenBound) then None
      else Some(Effect(s.top, s.chunks, th.(phase := EndLoaded(size, ForObject, e.end))))
    case (EndLoaded(size, why, end), Advance) =>
      Some(Effect(s.top, s.chunks, th.(phase := AtRetry(size, why, end, s.top))))
    case (AtRetry(size, why, end, obj), Advance) =>
      if EdenFits(end - obj, size) then
        Some(Effect(s.top, s.chunks, th.(phase := AtCas(size, why, obj, obj + size))))
      else Some(Effect(s.top, s.chunks, th.(phase := Idle)))            // slow case
    case (AtCas(size, why, obj, newTop), Advance) =>
      if s.top != obj then      // lost: both registers get the value found at the top
        Some(Effect(s.top, s.chunks, th.(phase := AtRetry(size, why, s.top, s.top))))
      else
        var c := Chunk(t, Block(obj, size), if why == ForObject then Object else Pending);
        var phase := if why == ForObject then Idle else Installing(size, obj, |s.chunks|);
        Some(Effect(newTop, s.chunks + [c], th.(phase := phase)))
    case (Installing(size, obj, k), Advance) => Some(Install(e, s, th, size, obj, k))
    case (Idle, TlabAllocate(size)) =>
      if !GoodRequest(size, e.tlabBound) then None
      else if TlabFits(th.tlab.end - th.tlab.top, size) then
        Some(Effect(s.top, Allocated(s, th.tlab, size), th.(tlab := th.tlab.(top := th.tlab.top + size))))
      else Some(Effect(s.top, s.chunks, th))                            // slow case
    case (Idle, TlabRefill(size)) =>
      if !(GoodRequest(size, e.edenBound) && size > ReserveBytes(e)) then None
      else if (th.tlab.end - th.tlab.top) / e.word <= th.tlab.wasteLimit then
        Some(Effect(s.top, s.chunks, th.(phase := EndLoaded(size, ForTlab, e.end))))
      else
        Some(Effect(s.top, s.chunks,
                    th.(tlab := th.tlab.(wasteLimit := th.tlab.wasteLimit + e.wasteIncrement))))
    case _ => None
  }

  ghost predicate StepBy(e: Env, s: State, s': State, t: Tid, a: Action)
    requires ValidEnv(e)
  {
    && t in s.threads
    && var r := ThreadStep(e, s, t, s.threads[t], a);
       r.Some? && s' == State(r.value.top, r.value.chunks, s.threads[t := r.value.thread])
  }

  ghost predicate Step(e: Env, s: State, s': State)
    requires ValidEnv(e)
  {
    exists t, a :: StepBy(e, s, s', t, a)
  }

  ghost predicate Init(e: Env, s: State)
  {
    && s.top == e.bottom && s.chunks == []
    && forall t :: t in s.threads ==> s.threads[t].phase == Idle && NoTlab(s.threads[t].tlab)
  }

  ghost predicate Run(e: Env, run: seq<State>)
    requires ValidEnv(e)
  {
    && |run| > 0 && Init(e, run[0])
    && forall i :: 0 <= i < |run| - 1 ==> Step(e, run[i], run[i + 1])
  }

  // --------------------------------------------------------------------------
  // Tilings

  function End(b: Block): int {
    b.start + b.size
  }

  /** The blocks lie side by side, none empty, from lo up to hi. */
  ghost predicate Tiles(bs: seq<Block>, lo: int, hi: int)
  {
    if bs == [] then lo == hi else
    var b := bs[|bs| - 1];
    b.size > 0 && End(b) == hi && Tiles(bs[..|bs| - 1], lo, b.start)
  }

  lemma TilesExtend(bs: seq<Block>, lo: int, mid: int, b: Block)
    requires Tiles(bs, lo, mid) && b.start == mid && b.size > 0
    ensures Tiles(bs + [b], lo, End(b))
  {
    assert (bs + [b])[..|bs|] == bs;
  }

  lemma {:induction false} TilesInside(bs: seq<Block>, lo: int, hi: int, i: nat)
    requires Tiles(bs, lo, hi) && i < |bs|
    ensures bs[i].size > 0 && lo <= bs[i].start && End(bs[i]) <= hi
  {
    var front, b := bs[..|bs| - 1], bs[|bs| - 1];
    if i < |front| {
      TilesInside(front, lo, b.start, i);
    } else if front != [] {
      TilesInside(front, lo, b.start, |front| - 1);
    }
  }

  /** Blocks of a tiling do not overlap. */
  lemma {:induction false} TilesOrdered(bs: seq<Block>, lo: int, hi: int, i: nat, j: nat)
    requires Tiles(bs, lo, hi) && i < j < |bs|
    ensures End(bs[i]) <= bs[j].start
  {
    var front, b := bs[..|bs| - 1], bs[|bs| - 1];
    if j < |front| {
      TilesOrdered(front, lo, b.start, i, j);
    } else {
      TilesInside(front, lo, b.start, i);
    }
  }

  predicate Disjoint(a: Block, b: Block) {
    End(a) <= b.start || End(b) <= a.start
  }

  // --------------------------------------------------------------------------
  // The invariant

  function Blocks(cs: seq<Chunk>): seq<Block> {
    seq(|cs|, i requires 0 <= i < |cs| => cs[i].block)
  }

  predicate Aligned(x: int) {
    x % ALIGN == 0
  }

  /** Eden requests are small enough for their test. */
  predicate EdenSafe(e: Env) {
    e.edenBound <= W32
  }

  /** Buffer requests are small enough for their test. */
  predicate TlabSafe(e: Env) {
    e.tlabBound <= HALF32
  }

  /** What a chunk says of its own contents and of its owner. */
  ghost predicate ChunkInv(e: Env, c: Chunk, k: nat, owner: Thread)
  {
    match c.content
    case Object => true
    case Pending => owner.phase == Installing(c.block.size, c.block.start, k)
    case Active(objs) =>
      && owner.tlab.chunk == Some(k)
      && Tiles(objs, c.block.start, owner.tlab.top)
      && owner.tlab.end + ReserveBytes(e) == End(c.block)
    case Retired(objs, filler) => TlabSafe(e) ==> Tiles(objs + [filler], c.block.start, End(c.block))
  }

  ghost predicate TlabInv(e: Env, t: Tid, tlab: Tlab, cs: seq<Chunk>)
  {
    && (TlabSafe(e) ==> tlab.top <= tlab.end) && Aligned(tlab.top) && Aligned(tlab.end)
    && match tlab.chunk
       case None => TlabSafe(e) ==> NoTlab(tlab)
       case Some(k) =>
         k < |cs| && cs[k].owner == t && cs[k].content.Active? && cs[k].block.start == tlab.start <= tlab.top
  }

  predicate GoodSize(e: Env, size: int, why: Purpose) {
    GoodRequest(size, e.edenBound) && (why == ForTlab ==> size > ReserveBytes(e))
  }

  ghost predicate PhaseInv(e: Env, t: Tid, p: Phase, cs: seq<Chunk>)
  {
    match p
    case Idle => true
    case EndLoaded(size, why, end) => GoodSize(e, size, why) && end == e.end
    case AtRetry(size, why, end, obj) =>
      GoodSize(e, size, why) && Aligned(obj) && (EdenSafe(e) ==> obj <= end) && (end == e.end || end == obj)
    case AtCas(size, why, obj, newTop) =>
      GoodSize(e, size, why) && Aligned(obj) && newTop == obj + size && (EdenSafe(e) ==> newTop <= e.end)
    case Installing(size, obj, k) =>
      GoodSize(e, size, ForTlab) && Aligned(obj) && k < |cs| && cs[k] == Chunk(t, Block(obj, size), Pending)
  }

  ghost predicate EdenInv(e: Env, top: int, cs: seq<Chunk>)
  {
    Tiles(Blocks(cs), e.bottom, top) && (EdenSafe(e) ==> top <= e.end) && Aligned(top)
  }

  ghost predicate Inv(e: Env, s: State)
  {
    && EdenInv(e, s.top, s.chunks)
    && (forall k :: 0 <= k < |s.chunks| ==>
          s.chunks[k].owner in s.threads && ChunkInv(e, s.chunks[k], k, s.threads[s.chunks[k].owner]))
    && (forall t :: t in s.threads ==>
          TlabInv(e, t, s.threads[t].tlab, s.chunks) && PhaseInv(e, t, s.threads[t].phase, s.chunks))
  }

  // --------------------------------------------------------------------------
  // Preservation

  /** A step of t between shared accesses: only its phase moves, and not to or from Installing. */
  lemma PhaseStep(e: Env, s: State, t: Tid, th: Thread)
    requires Inv(e, s) && t in s.threads && !th.phase.Installing? && !s.threads[t].phase.Installing?
    requires PhaseInv(e, t, th.phase, s.chunks)
    requires th.tlab == s.threads[t].tlab.(wasteLimit := th.tlab.wasteLimit)
    ensures Inv(e, State(s.top, s.chunks, s.threads[t := th]))
  {
    var s' := State(s.top, s.chunks, s.threads[t := th]);
    forall k | 0 <= k < |s.chunks|
      ensures ChunkInv(e, s.chunks[k], k, s'.threads[s.chunks[k].owner])
    {
      assert ChunkInv(e, s.chunks[k], k, s.threads[s.chunks[k].owner]);
    }
  }

  /** The test of eden_allocate leaves room for the request. */
  lemma RoomForRequest(e: Env, size: int, why: Purpose, end: int, obj: int)
    requires EdenSafe(e) && GoodSize(e, size, why)
    requires obj <= end && (end == e.end || end == obj) && EdenFits(end - obj, size)
    ensures obj + size <= e.end
  {
    EdenTestExact(size);
  }

  lemma EndKeepsInv(e: Env, s: State, s': State, t: Tid, a: Action)
    requires ValidEnv(e) && Inv(e, s) && StepBy(e, s, s', t, a) && s.threads[t].phase.EndLoaded?
    ensures Inv(e, s')
  {
    PhaseStep(e, s, t, s'.threads[t]);
  }

  lemma RetryKeepsInv(e: Env, s: State, s': State, t: Tid, a: Action)
    requires ValidEnv(e) && Inv(e, s) && StepBy(e, s, s', t, a) && s.threads[t].phase.AtRetry?
    ensures Inv(e, s')
  {
    var p := s.threads[t].phase;
    assert PhaseInv(e, t, p, s.chunks);
    if EdenSafe(e) && EdenFits(p.end - p.obj, p.size) {
      RoomForRequest(e, p.size, p.why, p.end, p.obj);
    }
    PhaseStep(e, s, t, s'.threads[t]);
  }

  lemma BeginKeepsInv(e: Env, s: State, s': State, t: Tid, a: Action)
    requires ValidEnv(e) && Inv(e, s) && StepBy(e, s, s', t, a)
    requires a.EdenAllocate? || a.TlabRefill?
    ensures Inv(e, s')
  {
    PhaseStep(e, s, t, s'.threads[t]);
  }

  lemma CasLossKeepsInv(e: Env, s: State, s': State, t: Tid, a: Action)
    requires ValidEnv(e) && Inv(e, s) && StepBy(e, s, s', t, a)
    requires s.threads[t].phase.AtCas? && s.top != s.threads[t].phase.obj
    ensures Inv(e, s')
  {
    PhaseStep(e, s, t, s'.threads[t]);
  }

  lemma AlignedSum(x: int, y: int)
    requires Aligned(x) && Aligned(y)
    ensures Aligned(x + y) && Aligned(x - y)
  {
  }

  lemma EdenGrows(e: Env, top: int, cs: seq<Chunk>, c: Chunk)
    requires EdenInv(e, top, cs) && e.bottom <= top
    requires c.block.start == top && c.block.size > 0 && Aligned(c.block.size)
    requires EdenSafe(e) ==> End(c.block) <= e.end
    ensures EdenInv(e, End(c.block), cs + [c])
  {
    assert Blocks(cs + [c]) == Blocks(cs) + [c.block];
    TilesExtend(Blocks(cs), e.bottom, top, c.block);
    AlignedSum(top, c.block.size);
  }

  lemma TopAboveBottom(e: Env, top: int, cs: seq<Chunk>)
    requires EdenInv(e, top, cs)
    ensures e.bottom <= top
  {
    if cs != [] {
      TilesInside(Blocks(cs), e.bottom, top, |cs| - 1);
    }
  }

  /** What is known of a thread stays known when a chunk is added. */
  lemma ThreadKeptByGrowth(e: Env, t: Tid, th: Thread, cs: seq<Chunk>, c: Chunk)
    requires TlabInv(e, t, th.tlab, cs) && PhaseInv(e, t, th.phase, cs)
    ensures TlabInv(e, t, th.tlab, cs + [c]) && PhaseInv(e, t, th.phase, cs + [c])
  {
  }

  /** Thread t takes the new chunk c, at the end of the log. */
  lemma GrowStep(e: Env, s: State, t: Tid, th: Thread, c: Chunk)
    requires Inv(e, s) && t in s.threads && c.owner == t && s.threads[t].phase.AtCas?
    requires EdenInv(e, End(c.block), s.chunks + [c])
    requires th.tlab == s.threads[t].tlab
    requires PhaseInv(e, t, th.phase, s.chunks + [c]) && ChunkInv(e, c, |s.chunks|, th)
    ensures Inv(e, State(End(c.block), s.chunks + [c], s.threads[t := th]))
  {
    var cs := s.chunks + [c];
    var threads := s.threads[t := th];
    forall k | 0 <= k < |cs| ensures cs[k].owner in threads && ChunkInv(e, cs[k], k, threads[cs[k].owner]) {
      if k < |s.chunks| {
        assert ChunkInv(e, s.chunks[k], k, s.threads[s.chunks[k].owner]);
      }
    }
    forall u | u in threads ensures TlabInv(e, u, threads[u].tlab, cs) && PhaseInv(e, u, threads[u].phase, cs) {
      ThreadKeptByGrowth(e, u, s.threads[u], s.chunks, c);
    }
  }

  lemma CasWinKeepsInv(e: Env, s: State, s': State, t: Tid, a: Action)
    requires ValidEnv(e) && Inv(e, s) && StepBy(e, s, s', t, a)
    requires s.threads[t].phase.AtCas? && s.top == s.threads[t].phase.obj
    ensures Inv(e, s')
  {
    var p := s.threads[t].phase;
    assert PhaseInv(e, t, p, s.chunks);
    TopAboveBottom(e, s.top, s.chunks);
    var c := Chunk(t, Block(p.obj, p.size), if p.why == ForObject then Object else Pending);
    EdenGrows(e, s.top, s.chunks, c);
    GrowStep(e, s, t, s'.threads[t], c);
  }

  /** The same chunks, except perhaps for the contents of those of t. */
  ghost predicate SameForOthers(cs: seq<Chunk>, cs': seq<Chunk>, t: Tid)
  {
    && |cs'| == |cs|
    && (forall k :: 0 <= k < |cs| ==> cs'[k].owner == cs[k].owner && cs'[k].block == cs[k].block)
    && (forall k :: 0 <= k < |cs| && cs[k].owner != t ==> cs'[k] == cs[k])
  }

  lemma OtherThreadKept(e: Env, cs: seq<Chunk>, cs': seq<Chunk>, t: Tid, u: Tid, th: Thread)
    requires SameForOthers(cs, cs', t) && u != t && TlabInv(e, u, th.tlab, cs) && PhaseInv(e, u, th.phase, cs)
    ensures TlabInv(e, u, th.tlab, cs') && PhaseInv(e, u, th.phase, cs')
  {
  }

  lemma EdenKept(e: Env, top: int, cs: seq<Chunk>, cs': seq<Chunk>, t: Tid)
    requires EdenInv(e, top, cs) && SameForOthers(cs, cs', t)
    ensures EdenInv(e, top, cs')
  {
    assert Blocks(cs') == Blocks(cs);
  }

  /** Chunks of t change their content, and t its buffer; everything else stays. */
  lemma ContentStep(e: Env, s: State, t: Tid, th: Thread, cs: seq<Chunk>)
    requires Inv(e, s) && t in s.threads && SameForOthers(s.chunks, cs, t)
    requires forall k :: 0 <= k < |cs| && cs[k].owner == t ==> ChunkInv(e, cs[k], k, th)
    requires TlabInv(e, t, th.tlab, cs) && th.phase == Idle
    ensures Inv(e, State(s.top, cs, s.threads[t := th]))
  {
    EdenKept(e, s.top, s.chunks, cs, t);
    var threads := s.threads[t := th];
    forall k | 0 <= k < |cs| ensures cs[k].owner in threads && ChunkInv(e, cs[k], k, threads[cs[k].owner]) {
      if cs[k].owner != t {
        assert ChunkInv(e, s.chunks[k], k, s.threads[s.chunks[k].owner]);
      }
    }
    forall u | u in threads && u != t
      ensures TlabInv(e, u, threads[u].tlab, cs) && PhaseInv(e, u, threads[u].phase, cs)
    {
      OtherThreadKept(e, s.chunks, cs, t, u, s.threads[u]);
    }
  }

  /** The test of tlab_allocate leaves room for the request in the buffer, so there is one. */
  lemma RoomInTlab(tlab: Tlab, size: int)
    requires tlab.top <= tlab.end && GoodRequest(size, HALF32) && TlabFits(tlab.end - tlab.top, size)
    ensures tlab.top + size <= tlab.end
  {
    TlabTestExact(size);
  }

  lemma HitChunk(e: Env, c: Chunk, k: nat, th: Thread, size: int)
    requires c.content.Active? && ChunkInv(e, c, k, th) && size > 0 && c.block.start <= th.tlab.top
    ensures ChunkInv(e, Extended(c, Block(th.tlab.top, size)), k,
                     Thread(Idle, th.tlab.(top := th.tlab.top + size)))
  {
    TilesExtend(c.content.objs, c.block.start, th.tlab.top, Block(th.tlab.top, size));
  }

  lemma UpdateIsLocal(cs: seq<Chunk>, k: nat, c: Chunk, t: Tid)
    requires k < |cs| && cs[k].owner == t && c.owner == t && c.block == cs[k].block
    ensures SameForOthers(cs, cs[k := c], t)
  {
  }

  lemma HitTlab(e: Env, t: Tid, tlab: Tlab, cs: seq<Chunk>, k: nat, c: Chunk, size: int)
    requires TlabInv(e, t, tlab, cs) && tlab.chunk == Some(k) && c == cs[k].(content := c.content) && c.content.Active?
    requires 0 <= size && Aligned(size) && (TlabSafe(e) ==> tlab.top + size <= tlab.end)
    ensures TlabInv(e, t, tlab.(top := tlab.top + size), cs[k := c])
  {
    AlignedSum(tlab.top, size);
  }

  /** What tlab_allocate does to a thread that finds room in its buffer k. */
  ghost predicate TlabHit(e: Env, s: State, s': State, t: Tid, size: int, k: nat)
  {
    && t in s.threads && s.threads[t].phase == Idle && s.threads[t].tlab.chunk == Some(k)
    && k < |s.chunks| && s.chunks[k].content.Active? && 0 < size && Aligned(size)
    && var tlab := s.threads[t].tlab;
       && (TlabSafe(e) ==> tlab.top + size <= tlab.end)
       && s' == State(s.top, s.chunks[k := Extended(s.chunks[k], Block(tlab.top, size))],
                      s.threads[t := Thread(Idle, tlab.(top := tlab.top + size))])
  }

  lemma TlabHitKeepsInv(e: Env, s: State, s': State, t: Tid, size: int, k: nat)
    requires Inv(e, s) && TlabHit(e, s, s', t, size, k)
    ensures Inv(e, s')
  {
    var tlab := s.threads[t].tlab;
    var c := Extended(s.chunks[k], Block(tlab.top, size));
    assert TlabInv(e, t, tlab, s.chunks);
    assert ChunkInv(e, s.chunks[k], k, s.threads[s.chunks[k].owner]);
    HitChunk(e, s.chunks[k], k, s.threads[t], size);
    HitTlab(e, t, tlab, s.chunks, k, c, size);
    UpdateIsLocal(s.chunks, k, c, t);
    OthersKept(e, s, t, s'.threads[t], s'.chunks, k);
    ContentStep(e, s, t, s'.threads[t], s'.chunks);
  }

  /** What it does to a thread without a buffer, if the test lets the request pass: the object is no part of eden. */
  ghost predicate TlabStray(e: Env, s: State, s': State, t: Tid, size: int)
  {
    && t in s.threads && s.threads[t].phase == Idle && s.threads[t].tlab.chunk == None && !TlabSafe(e) && Aligned(size)
    && var tlab := s.threads[t].tlab;
       s' == State(s.top, s.chunks, s.threads[t := Thread(Idle, tlab.(top := tlab.top + size))])
  }

  lemma TlabStrayKeepsInv(e: Env, s: State, s': State, t: Tid, size: int)
    requires Inv(e, s) && TlabStray(e, s, s', t, size)
    ensures Inv(e, s')
  {
    var th := s'.threads[t];
    AlignedSum(s.threads[t].tlab.top, size);
    forall k | 0 <= k < |s.chunks| && s.chunks[k].owner == t ensures ChunkInv(e, s.chunks[k], k, th) {
      assert ChunkInv(e, s.chunks[k], k, s.threads[s.chunks[k].owner]);
    }
    assert TlabInv(e, t, s.threads[t].tlab, s.chunks);
    ContentStep(e, s, t, th, s.chunks);
  }

  /** tlab_allocate misses, or takes the object from the top of the buffer, which has room for it if requests are
      small enough. */
  lemma TlabAllocateEffect(e: Env, s: State, s': State, t: Tid, a: Action)
    requires ValidEnv(e) && StepBy(e, s, s', t, a) && a.TlabAllocate? && TlabInv(e, t, s.threads[t].tlab, s.chunks)
    ensures s.threads[t].phase == Idle
    ensures || s' == State(s.top, s.chunks, s.threads[t := s.threads[t]])
            || (s.threads[t].tlab.chunk.Some? && TlabHit(e, s, s', t, a.size, s.threads[t].tlab.chunk.value))
            || TlabStray(e, s, s', t, a.size)
  {
    var tlab := s.threads[t].tlab;
    if TlabSafe(e) && TlabFits(tlab.end - tlab.top, a.size) {
      RoomInTlab(tlab, a.size);
    }
  }

  /** The chunks of t other than its buffer k do not depend on where the buffer stands. */
  lemma OthersKept(e: Env, s: State, t: Tid, th: Thread, cs: seq<Chunk>, k: nat)
    requires Inv(e, s) && t in s.threads && k < |s.chunks| == |cs| && s.threads[t].tlab.chunk == Some(k)
    requires s.threads[t].phase == Idle && th.phase == Idle
    requires forall j :: 0 <= j < |cs| && j != k ==> cs[j] == s.chunks[j]
    requires ChunkInv(e, cs[k], k, th)
    ensures forall j :: 0 <= j < |cs| && cs[j].owner == t ==> ChunkInv(e, cs[j], j, th)
  {
    forall j | 0 <= j < |cs| && cs[j].owner == t ensures ChunkInv(e, cs[j], j, th) {
      assert ChunkInv(e, s.chunks[j], j, s.threads[s.chunks[j].owner]);
    }
  }

  /** The old buffer, closed by its filler, is tiled up to the end of its chunk. */
  lemma RetiredIsTiled(e: Env, c: Chunk, k: nat, t: Tid, th: Thread, cs: seq<Chunk>)
    requires ValidEnv(e) && TlabSafe(e) && th.tlab.chunk == Some(k) && k < |cs| && cs[k] == c && c.content.Active?
    requires TlabInv(e, t, th.tlab, cs) && ChunkInv(e, c, k, th)
    ensures Tiles(c.content.objs + [Filler(e, th.tlab)], c.block.start, End(c.block))
    ensures FillerLength(e, th.tlab) >= 0
  {
    AlignedSum(th.tlab.end, th.tlab.top);
    FillerReachesEnd(e, th.tlab);
    TilesExtend(c.content.objs, c.block.start, th.tlab.top, Filler(e, th.tlab));
  }

  lemma InstallIsLocal(e: Env, s: State, t: Tid, th: Thread)
    requires ValidEnv(e) && th.phase.Installing?
    requires TlabInv(e, t, th.tlab, s.chunks) && PhaseInv(e, t, th.phase, s.chunks)
    ensures var r := Install(e, s, th, th.phase.size, th.phase.obj, th.phase.chunk);
            var k := th.phase.chunk;
            && r.top == s.top && SameForOthers(s.chunks, r.chunks, t)
            && r.chunks[k] == s.chunks[k].(content := Active([]))
            && (th.tlab.chunk.Some? ==>
                  var m := th.tlab.chunk.value;
                  var c := s.chunks[m];
                  m != k && r.chunks[m] == c.(content := Retired(c.content.objs, Filler(e, th.tlab))))
            && (forall m :: 0 <= m < |s.chunks| && m != k && th.tlab.chunk != Some(m) ==> r.chunks[m] == s.chunks[m])
  {
  }

  /** The chunks of t after its buffer has been replaced. */
  lemma InstalledChunk(e: Env, s: State, t: Tid, m: nat)
    requires ValidEnv(e) && Inv(e, s) && t in s.threads && s.threads[t].phase.Installing?
    requires m < |s.chunks| && s.chunks[m].owner == t
    ensures var th := s.threads[t];
            var r := Install(e, s, th, th.phase.size, th.phase.obj, th.phase.chunk);
            |r.chunks| == |s.chunks| && ChunkInv(e, r.chunks[m], m, r.thread)
  {
    var th := s.threads[t];
    assert TlabInv(e, t, th.tlab, s.chunks) && PhaseInv(e, t, th.phase, s.chunks);
    InstallIsLocal(e, s, t, th);
    assert ChunkInv(e, s.chunks[m], m, s.threads[s.chunks[m].owner]);
    if TlabSafe(e) && th.tlab.chunk == Some(m) {
      RetiredIsTiled(e, s.chunks[m], m, t, th, s.chunks);
    }
  }

  lemma InstallKeepsInv(e: Env, s: State, s': State, t: Tid, a: Action)
    requires ValidEnv(e) && Inv(e, s) && StepBy(e, s, s', t, a) && s.threads[t].phase.Installing?
    ensures Inv(e, s')
  {
    var th, th' := s.threads[t], s'.threads[t];
    var p := th.phase;
    assert TlabInv(e, t, th.tlab, s.chunks) && PhaseInv(e, t, p, s.chunks);
    InstallIsLocal(e, s, t, th);
    AlignedSum(p.obj, p.size);
    AlignedSum(p.obj + p.size, ReserveBytes(e));
    forall k | 0 <= k < |s'.chunks| && s'.chunks[k].owner == t ensures ChunkInv(e, s'.chunks[k], k, th') {
      InstalledChunk(e, s, t, k);
    }
    assert TlabInv(e, t, th'.tlab, s'.chunks);
    ContentStep(e, s, t, th', s'.chunks);
  }

  lemma StepKeepsInv(e: Env, s: State, s': State, t: Tid, a: Action)
    requires ValidEnv(e) && Inv(e, s) && StepBy(e, s, s', t, a)
    ensures Inv(e, s')
  {
    match s.threads[t].phase
    case Idle =>
      if a.TlabAllocate? {
        TlabAllocateEffect(e, s, s', t, a);
        if s' == State(s.top, s.chunks, s.threads[t := s.threads[t]]) {
          PhaseStep(e, s, t, s.threads[t]);
        } else if TlabStray(e, s, s', t, a.size) {
          TlabStrayKeepsInv(e, s, s', t, a.size);
        } else {
          TlabHitKeepsInv(e, s, s', t, a.size, s.threads[t].tlab.chunk.value);
        }
      } else {
        BeginKeepsInv(e, s, s', t, a);
      }
    case EndLoaded(_, _, _) => EndKeepsInv(e, s, s', t, a);
    case AtRetry(_, _, _, _) => RetryKeepsInv(e, s, s', t, a);
    case AtCas(_, _, obj, _) =>
      if s.top == obj {
        CasWinKeepsInv(e, s, s', t, a);
      } else {
        CasLossKeepsInv(e, s, s', t, a);
      }
    case Installing(_, _, _) => InstallKeepsInv(e, s, s', t, a);
  }

  lemma {:induction false} RunKeepsInv(e: Env, run: seq<State>, i: nat)
    requires ValidEnv(e) && Run(e, run) && i < |run|
    ensures Inv(e, run[i])
  {
    if i > 0 {
      RunKeepsInv(e, run, i - 1);
      assert Step(e, run[i - 1], run[i - 1 + 1]);
      var t, a :| StepBy(e, run[i - 1], run[i], t, a);
      StepKeepsInv(e, run[i - 1], run[i], t, a);
    }
  }

  // --------------------------------------------------------------------------
  // Main results

  /** In every reachable state the chunks handed out by eden tile everything from its bottom to its top, which stays
      aligned; and the top stays within eden if requests are small enough. */
  lemma EdenIsTiled(e: Env, run: seq<State>, i: nat)
    requires ValidEnv(e) && Run(e, run) && i < |run|
    ensures Tiles(Blocks(run[i].chunks), e.bottom, run[i].top)
    ensures e.bottom <= run[i].top && Aligned(run[i].top) && (EdenSafe(e) ==> run[i].top <= e.end)
  {
    RunKeepsInv(e, run, i);
    TopAboveBottom(e, run[i].top, run[i].chunks);
  }

  /** The objects handed out from a chunk. */
  function ObjectsIn(c: Chunk): seq<Block> {
    match c.content
    case Object => [c.block]
    case Pending => []
    case Active(objs) => objs
    case Retired(objs, _) => objs
  }

  /** A buffer in use is tiled by its objects up to its top, which is not behind its end; a replaced one by its objects
      and one filler array up to its old end plus the reserve. */
  ghost predicate BufferTiled(e: Env, s: State, k: nat)
    requires k < |s.chunks|
  {
    var c := s.chunks[k];
    && c.owner in s.threads
    && (c.content.Active? ==>
          var tlab := s.threads[c.owner].tlab;
          && tlab.start == c.block.start && Tiles(c.content.objs, tlab.start, tlab.top)
          && tlab.top <= tlab.end && tlab.end + ReserveBytes(e) == End(c.block))
    && (c.content.Retired? ==> Tiles(c.content.objs + [c.content.filler], c.block.start, End(c.block)))
  }

  lemma BuffersAreTiled(e: Env, run: seq<State>, i: nat, k: nat)
    requires ValidEnv(e) && TlabSafe(e) && Run(e, run) && i < |run| && k < |run[i].chunks|
    ensures BufferTiled(e, run[i], k)
  {
    RunKeepsInv(e, run, i);
    var s := run[i];
    var c := s.chunks[k];
    assert ChunkInv(e, c, k, s.threads[c.owner]);
    assert TlabInv(e, c.owner, s.threads[c.owner].tlab, s.chunks);
  }

  lemma ObjectsInsideChunk(e: Env, run: seq<State>, i: nat, k: nat, m: nat)
    requires ValidEnv(e) && TlabSafe(e) && Run(e, run) && i < |run|
    requires k < |run[i].chunks| && m < |ObjectsIn(run[i].chunks[k])|
    ensures var c := run[i].chunks[k]; var b := ObjectsIn(c)[m];
            b.size > 0 && c.block.start <= b.start && End(b) <= End(c.block)
  {
    EdenIsTiled(e, run, i);
    BuffersAreTiled(e, run, i, k);
    var c := run[i].chunks[k];
    TilesInside(Blocks(run[i].chunks), e.bottom, run[i].top, k);
    match c.content
    case Active(objs) => TilesInside(objs, c.block.start, run[i].threads[c.owner].tlab.top, m);
    case Retired(objs, filler) => TilesInside(objs + [filler], c.block.start, End(c.block), m);
    case _ =>
  }

  /** The m-th object of chunk k and the n-th of chunk l do not overlap, unless they are the same. */
  ghost predicate Apart(s: State, k: nat, m: nat, l: nat, n: nat)
  {
    var cs := s.chunks;
    k < |cs| && m < |ObjectsIn(cs[k])| && l < |cs| && n < |ObjectsIn(cs[l])| && (k, m) != (l, n) ==>
      Disjoint(ObjectsIn(cs[k])[m], ObjectsIn(cs[l])[n])
  }

  /** Any two objects ever handed out, from eden or from buffers, are disjoint. */
  lemma ObjectsDisjoint(e: Env, run: seq<State>, i: nat, k: nat, m: nat, l: nat, n: nat)
    requires ValidEnv(e) && TlabSafe(e) && Run(e, run) && i < |run|
    ensures Apart(run[i], k, m, l, n)
  {
    var s := run[i];
    if k < |s.chunks| && m < |ObjectsIn(s.chunks[k])| && l < |s.chunks| && n < |ObjectsIn(s.chunks[l])| {
      if k != l {
        DifferentChunksDisjoint(e, run, i, k, m, l, n);
      } else if m != n {
        SameChunkDisjoint(e, run, i, k, m, n);
      }
    }
  }

  lemma DifferentChunksDisjoint(e: Env, run: seq<State>, i: nat, k: nat, m: nat, l: nat, n: nat)
    requires ValidEnv(e) && TlabSafe(e) && Run(e, run) && i < |run| && k != l
    requires k < |run[i].chunks| && m < |ObjectsIn(run[i].chunks[k])|
    requires l < |run[i].chunks| && n < |ObjectsIn(run[i].chunks[l])|
    ensures Disjoint(ObjectsIn(run[i].chunks[k])[m], ObjectsIn(run[i].chunks[l])[n])
  {
    ObjectsInsideChunk(e, run, i, k, m);
    ObjectsInsideChunk(e, run, i, l, n);
    EdenIsTiled(e, run, i);
    var bs := Blocks(run[i].chunks);
    assert bs[k] == run[i].chunks[k].block && bs[l] == run[i].chunks[l].block;
    if k < l {
      TilesOrdered(bs, e.bottom, run[i].top, k, l);
    } else {
      TilesOrdered(bs, e.bottom, run[i].top, l, k);
    }
  }

  lemma SameChunkDisjoint(e: Env, run: seq<State>, i: nat, k: nat, m: nat, n: nat)
    requires ValidEnv(e) && TlabSafe(e) && Run(e, run) && i < |run| && k < |run[i].chunks| && m != n
    requires m < |ObjectsIn(run[i].chunks[k])| && n < |ObjectsIn(run[i].chunks[k])|
    ensures Disjoint(ObjectsIn(run[i].chunks[k])[m], ObjectsIn(run[i].chunks[k])[n])
  {
    BuffersAreTiled(e, run, i, k);
    var c := run[i].chunks[k];
    var x, y := if m < n then m else n, if m < n then n else m;
    if c.content.Retired? {
      var all := c.content.objs + [c.content.filler];
      assert all[x] == c.content.objs[x] && all[y] == c.content.objs[y];
      TilesOrdered(all, c.block.start, End(c.block), x, y);
    } else {
      var tlab := run[i].threads[c.owner].tlab;
      TilesOrdered(c.content.objs, tlab.start, tlab.top, x, y);
    }
  }

  /** A lost race does not retry: the register that held the free space now equals the object, so the next test sends
      the thread to the slow case, except for requests of a multiple of 4 GB. */
  lemma LostRaceGoesSlow(e: Env, s: State, s': State, t: Tid)
    requires ValidEnv(e) && Inv(e, s) && StepBy(e, s, s', t, Advance)
    requires s.threads[t].phase.AtCas? && s.top != s.threads[t].phase.obj
    ensures ThreadStep(e, s', t, s'.threads[t], Advance)
         == Some(Effect(s'.top, s'.chunks, s'.threads[t].(phase := Idle)))
        <==> Low32(s.threads[t].phase.size) != 0
  {
    assert PhaseInv(e, t, s.threads[t].phase, s.chunks);
    assert Low32(0) == 0;
  }

  // --------------------------------------------------------------------------
  // What a thread gets

  /** The state after a step of t. */
  function After(e: Env, s: State, t: Tid, a: Action): State
    requires e.word > 0 && t in s.threads && ThreadStep(e, s, t, s.threads[t], a).Some?
  {
    var r := ThreadStep(e, s, t, s.threads[t], a).value;
    State(r.top, r.chunks, s.threads[t := r.thread])
  }

  /** The thread makes one step after the other along the path. */
  ghost predicate Path(e: Env, path: seq<State>, t: Tid)
    requires ValidEnv(e)
  {
    forall i :: 0 <= i < |path| - 1 ==> StepBy(e, path[i], path[i + 1], t, Advance)
  }

  /** A request to a buffer of less than 2 GB of free space gets the object at its top exactly if there is room; the
      buffer's top then is the object's end. */
  lemma BufferGivesIff(e: Env, run: seq<State>, i: nat, t: Tid, size: int)
    requires ValidEnv(e) && TlabSafe(e) && Run(e, run) && i < |run| && GoodRequest(size, e.tlabBound)
    requires t in run[i].threads && run[i].threads[t].phase == Idle
    requires run[i].threads[t].tlab.end - run[i].threads[t].tlab.top < HALF32
    ensures var s, tlab := run[i], run[i].threads[t].tlab;
            ThreadStep(e, s, t, s.threads[t], TlabAllocate(size)).Some?
            && var s' := After(e, s, t, TlabAllocate(size));
               if size <= tlab.end - tlab.top then
                 && s'.threads[t].tlab == tlab.(top := tlab.top + size) && tlab.chunk.Some?
                 && tlab.chunk.value < |s'.chunks| == |s.chunks|
                 && ObjectsIn(s'.chunks[tlab.chunk.value])
                    == ObjectsIn(s.chunks[tlab.chunk.value]) + [Block(tlab.top, size)]
               else s' == s
  {
    RunKeepsInv(e, run, i);
    var s := run[i];
    assert TlabInv(e, t, s.threads[t].tlab, s.chunks);
    assert s.threads[t := s.threads[t]] == s.threads;
  }

  /** Left alone, a request to an eden with less than 4 GB free gets the object at the top exactly if there is room. */
  lemma EdenGivesIff(e: Env, s: State, t: Tid, size: int) returns (path: seq<State>)
    requires ValidEnv(e) && GoodRequest(size, e.edenBound) && size < W32 && 0 <= e.end - s.top < W32
    requires t in s.threads && s.threads[t].phase == Idle
    ensures |path| > 0 && StepBy(e, s, path[0], t, EdenAllocate(size)) && Path(e, path, t)
    ensures path[|path| - 1] ==
              if size <= e.end - s.top then
                State(s.top + size, s.chunks + [Chunk(t, Block(s.top, size), Object)], s.threads)
              else s
  {
    var s0 := After(e, s, t, EdenAllocate(size));
    var s1 := After(e, s0, t, Advance);
    var s2 := After(e, s1, t, Advance);
    assert Low32(e.end - s.top) == e.end - s.top && Low32(size) == size;
    if size <= e.end - s.top {
      var s3 := After(e, s2, t, Advance);
      path := [s0, s1, s2, s3];
      assert s3.threads == s.threads;
    } else {
      path := [s0, s1, s2];
      assert s2.threads == s.threads;
    }
  }

  /** A refill keeps a buffer with more words free than the waste limit, and raises the limit; otherwise it goes to eden
      for a new buffer. */
  lemma RefillDecides(e: Env, s: State, t: Tid, size: int)
    requires ValidEnv(e) && GoodRequest(size, e.edenBound) && size > ReserveBytes(e)
    requires t in s.threads && s.threads[t].phase == Idle
    ensures ThreadStep(e, s, t, s.threads[t], TlabRefill(size)).Some?
    ensures var tlab := s.threads[t].tlab;
            After(e, s, t, TlabRefill(size)) == s.(threads := s.threads[t :=
              if (tlab.end - tlab.top) / e.word > tlab.wasteLimit then
                Thread(Idle, tlab.(wasteLimit := tlab.wasteLimit + e.wasteIncrement))
              else Thread(EndLoaded(size, ForTlab, e.end), tlab)])
  {
  }

  /** Refills that keep the buffer do not go on forever: after some of them one goes to eden. */
  lemma {:induction false} RefillNotStuck(e: Env, s: State, t: Tid, size: int) returns (path: seq<State>)
    requires ValidEnv(e) && GoodRequest(size, e.edenBound) && size > ReserveBytes(e) && e.wasteIncrement > 0
    requires t in s.threads && s.threads[t].phase == Idle
    ensures |path| > 0 && path[0] == s
    ensures forall i :: 0 <= i < |path| - 1 ==> StepBy(e, path[i], path[i + 1], t, TlabRefill(size))
    ensures var last := path[|path| - 1]; t in last.threads && last.threads[t].phase == EndLoaded(size, ForTlab, e.end)
    decreases (s.threads[t].tlab.end - s.threads[t].tlab.top) / e.word - s.threads[t].tlab.wasteLimit
  {
    RefillDecides(e, s, t, size);
    var s1 := After(e, s, t, TlabRefill(size));
    assert StepBy(e, s, s1, t, TlabRefill(size));
    if s1.threads[t].phase == Idle {
      var rest := RefillNotStuck(e, s1, t, size);
      path := [s] + rest;
    } else {
      path := [s, s1];
    }
  }

  /** The chunks after the buffer of a thread has been closed by a filler up to its end plus the reserve. */
  function Closed(e: Env, cs: seq<Chunk>, tlab: Tlab): seq<Chunk> {
    match tlab.chunk
    case None => cs
    case Some(k) =>
      if k < |cs| && cs[k].content.Active? then
        var filler := Block(tlab.top, tlab.end + ReserveBytes(e) - tlab.top);
        cs[k := cs[k].(content := Retired(cs[k].content.objs, filler))]
      else cs
  }

  lemma TakesChunk(e: Env, s: State, t: Tid, size: int) returns (path: seq<State>)
    requires ValidEnv(e) && 0 < size <= e.end - s.top < W32
    requires t in s.threads && s.threads[t].phase == EndLoaded(size, ForTlab, e.end)
    ensures |path| == 4 && path[0] == s && Path(e, path, t)
    ensures path[3] == State(s.top + size, s.chunks + [Chunk(t, Block(s.top, size), Pending)],
                             s.threads[t := Thread(Installing(size, s.top, |s.chunks|), s.threads[t].tlab)])
  {
    assert Low32(e.end - s.top) == e.end - s.top && Low32(size) == size;
    var s1 := After(e, s, t, Advance);
    var s2 := After(e, s1, t, Advance);
    var s3 := After(e, s2, t, Advance);
    path := [s, s1, s2, s3];
    assert s3.threads == s.threads[t := s3.threads[t]];
  }

  lemma InstallsBuffer(e: Env, cs: seq<Chunk>, s: State, t: Tid, size: int, obj: int)
    requires ValidEnv(e) && t in s.threads && s.threads[t].phase == Installing(size, obj, |cs|)
    requires s.chunks == cs + [Chunk(t, Block(obj, size), Pending)]
    requires var tlab := s.threads[t].tlab;
             && (tlab.chunk.Some? ==> tlab.chunk.value < |cs|)
             && Filler(e, tlab).start + Filler(e, tlab).size == tlab.end + ReserveBytes(e)
    ensures var tlab := s.threads[t].tlab;
            var new' := Tlab(obj, obj, obj + size - ReserveBytes(e), tlab.wasteLimit, Some(|cs|));
            After(e, s, t, Advance)
            == State(s.top, Closed(e, cs, tlab) + [Chunk(t, Block(obj, size), Active([]))],
                     s.threads[t := Thread(Idle, new')])
  {
    InstalledChunks(e, cs, Chunk(t, Block(obj, size), Pending), s.threads[t].tlab);
  }

  /** With room in eden, and left alone, a refill that goes to eden closes the old buffer with a filler and installs a
      new one at the old eden top; its end leaves the reserve free. */
  lemma RefillInstalls(e: Env, run: seq<State>, i: nat, t: Tid, size: int) returns (path: seq<State>)
    requires ValidEnv(e) && TlabSafe(e) && Run(e, run) && i < |run|
    requires size <= e.end - run[i].top < W32
    requires t in run[i].threads && run[i].threads[t].phase == EndLoaded(size, ForTlab, e.end)
    ensures |path| == 5 && path[0] == run[i] && Path(e, path, t)
    ensures var s, tlab := run[i], run[i].threads[t].tlab;
            var new' := Tlab(s.top, s.top, s.top + size - ReserveBytes(e), tlab.wasteLimit, Some(|s.chunks|));
            path[4] == State(s.top + size, Closed(e, s.chunks, tlab) + [Chunk(t, Block(s.top, size), Active([]))],
                             s.threads[t := Thread(Idle, new')])
  {
    RunKeepsInv(e, run, i);
    var s := run[i];
    var tlab := s.threads[t].tlab;
    assert TlabInv(e, t, tlab, s.chunks) && PhaseInv(e, t, s.threads[t].phase, s.chunks);
    AlignedSum(tlab.end, tlab.top);
    FillerReachesEnd(e, tlab);
    var first := TakesChunk(e, s, t, size);
    InstallsBuffer(e, s.chunks, first[3], t, size, s.top);
    var s4 := After(e, first[3], t, Advance);
    path := first + [s4];
    assert first[3].threads[t := s4.threads[t]] == s.threads[t := s4.threads[t]];
  }

  lemma InstalledChunks(e: Env, cs: seq<Chunk>, c: Chunk, tlab: Tlab)
    requires ValidEnv(e) && tlab.chunk.Some? ==> tlab.chunk.value < |cs|
    requires e.word > 0 && Filler(e, tlab).start + Filler(e, tlab).size == tlab.end + ReserveBytes(e)
    ensures var closed := Closed(e, cs + [c], tlab);
            && |closed| == |cs| + 1
            && closed[|cs| := c.(content := Active([]))] == Closed(e, cs, tlab) + [c.(content := Active([]))]
  {
  }

  // --------------------------------------------------------------------------
  // Runs with large requests

  ghost predicate RunTo(e: Env, run: seq<State>, s: State)
    requires ValidEnv(e)
  {
    Run(e, run) && run[|run| - 1] == s
  }

  ghost predicate Reachable(e: Env, s: State)
    requires ValidEnv(e)
  {
    exists run :: RunTo(e, run, s)
  }

  /** A state with one thread. */
  function Alone(top: int, chunks: seq<Chunk>, phase: Phase, tlab: Tlab): State {
    State(top, chunks, map[0 := Thread(phase, tlab)])
  }

  const EMPTY := Tlab(0, 0, 0, 0, None)

  lemma StartReachable(e: Env)
    requires ValidEnv(e)
    ensures Reachable(e, Alone(e.bottom, [], Idle, EMPTY))
  {
    assert RunTo(e, [Alone(e.bottom, [], Idle, EMPTY)], Alone(e.bottom, [], Idle, EMPTY));
  }

  /** One more step of the thread. */
  lemma Go(e: Env, s: State, a: Action, s': State)
    requires ValidEnv(e) && Reachable(e, s) && s.threads.Keys == {0} == s'.threads.Keys
    requires ThreadStep(e, s, 0, s.threads[0], a) == Some(Effect(s'.top, s'.chunks, s'.threads[0]))
    ensures Reachable(e, s')
  {
    var run :| RunTo(e, run, s);
    assert s'.threads == s.threads[0 := s'.threads[0]];
    assert StepBy(e, s, s', 0, a);
    assert RunTo(e, run + [s'], s');
  }

  /** The steps of an eden allocation up to its compare-and-swap. */
  lemma GoEden(e: Env, top: int, cs: seq<Chunk>, tlab: Tlab, size: int, why: Purpose)
    requires ValidEnv(e) && Reachable(e, Alone(top, cs, EndLoaded(size, why, e.end), tlab))
    requires EdenFits(e.end - top, size)
    ensures Reachable(e, Alone(top, cs, AtCas(size, why, top, top + size), tlab))
  {
    var s1 := Alone(top, cs, EndLoaded(size, why, e.end), tlab);
    var s2 := Alone(top, cs, AtRetry(size, why, e.end, top), tlab);
    Go(e, s1, Advance, s2);
    Go(e, s2, Advance, Alone(top, cs, AtCas(size, why, top, top + size), tlab));
  }

  /** An object from eden. */
  lemma GoObject(e: Env, top: int, cs: seq<Chunk>, tlab: Tlab, size: int)
    requires ValidEnv(e) && Reachable(e, Alone(top, cs, Idle, tlab)) && GoodRequest(size, e.edenBound)
    requires EdenFits(e.end - top, size)
    ensures Reachable(e, Alone(top + size, cs + [Chunk(0, Block(top, size), Object)], Idle, tlab))
  {
    Go(e, Alone(top, cs, Idle, tlab), EdenAllocate(size), Alone(top, cs, EndLoaded(size, ForObject, e.end), tlab));
    GoEden(e, top, cs, tlab, size, ForObject);
    Go(e, Alone(top, cs, AtCas(size, ForObject, top, top + size), tlab), Advance,
       Alone(top + size, cs + [Chunk(0, Block(top, size), Object)], Idle, tlab));
  }

  /** The first buffer. */
  lemma GoBuffer(e: Env, size: int)
    requires ValidEnv(e) && GoodRequest(size, e.edenBound) && size > ReserveBytes(e)
    requires EdenFits(e.end - e.bottom, size)
    ensures var b := e.bottom;
            Reachable(e, Alone(b + size, [Chunk(0, Block(b, size), Active([]))], Idle,
                               Tlab(b, b, b + size - ReserveBytes(e), 0, Some(0))))
  {
    var b := e.bottom;
    StartReachable(e);
    Go(e, Alone(b, [], Idle, EMPTY), TlabRefill(size), Alone(b, [], EndLoaded(size, ForTlab, e.end), EMPTY));
    GoEden(e, b, [], EMPTY, size, ForTlab);
    var c := Chunk(0, Block(b, size), Pending);
    var cs := [c];
    assert [] + [c] == cs && cs[0 := c.(content := Active([]))] == [c.(content := Active([]))];
    Go(e, Alone(b, [], AtCas(size, ForTlab, b, b + size), EMPTY), Advance,
       Alone(b + size, cs, Installing(size, b, 0), EMPTY));
    Go(e, Alone(b + size, cs, Installing(size, b, 0), EMPTY), Advance,
       Alone(b + size, [Chunk(0, Block(b, size), Active([]))], Idle,
             Tlab(b, b, b + size - ReserveBytes(e), 0, Some(0))));
  }

  /** An object of 2 GB passes the test of every buffer. */
  lemma GoHuge(e: Env, top: int, cs: seq<Chunk>, tlab: Tlab)
    requires ValidEnv(e) && !TlabSafe(e) && Reachable(e, Alone(top, cs, Idle, tlab))
    ensures Reachable(e, Alone(top, Allocated(Alone(top, cs, Idle, tlab), tlab, HALF32), Idle,
                               tlab.(top := tlab.top + HALF32)))
  {
    var s := Alone(top, cs, Idle, tlab);
    assert Signed(HALF32) == -HALF32;
    Go(e, s, TlabAllocate(HALF32), Alone(top, Allocated(s, tlab, HALF32), Idle, tlab.(top := tlab.top + HALF32)));
  }

  /** Objects of 4 GB pass the test of eden, whatever is left of it, so its top passes its end. */
  lemma {:induction false} EdenOverrun(e: Env, n: nat) returns (cs: seq<Chunk>)
    requires ValidEnv(e) && !EdenSafe(e)
    ensures Reachable(e, Alone(e.bottom + n * W32, cs, Idle, EMPTY))
  {
    if n == 0 {
      StartReachable(e);
      cs := [];
    } else {
      var before := EdenOverrun(e, n - 1);
      var top := e.bottom + (n - 1) * W32;
      assert Low32(W32) == 0;
      GoObject(e, top, before, EMPTY, W32);
      cs := before + [Chunk(0, Block(top, W32), Object)];
      assert top + W32 == e.bottom + n * W32;
    }
  }

  /** Eden can hand out a smallest buffer and an object behind it. */
  predicate Roomy(e: Env) {
    ReserveBytes(e) + 8 < e.edenBound && Low32(e.end - e.bottom) >= ReserveBytes(e) + 16
  }

  /** A buffer, an object from eden behind it, and two objects of 2 GB from the buffer: they cover the eden object. */
  lemma BufferOverrun(e: Env) returns (s: State)
    requires ValidEnv(e) && !TlabSafe(e) && Roomy(e)
    ensures Reachable(e, s) && |s.chunks| == 2
    ensures s.chunks[0].content.Active? && |ObjectsIn(s.chunks[0])| == 2 && |ObjectsIn(s.chunks[1])| == 1
    ensures !Apart(s, 0, 0, 1, 0) || !Apart(s, 0, 1, 1, 0)
  {
    var r := ReserveBytes(e);
    var b, size := e.bottom, r + 8;
    RoomForBoth(e, e.end - b);
    GoBuffer(e, size);
    var c, tlab := Chunk(0, Block(b, size), Active([])), Tlab(b, b, b + size - r, 0, Some(0));
    assert e.end - (b + size) == e.end - b - size;
    GoObject(e, b + size, [c], tlab, 8);
    var d := Chunk(0, Block(b + size, 8), Object);
    assert [c] + [d] == [c, d];
    GoHuge(e, b + size + 8, [c, d], tlab);
    var c1 := c.(content := Active([Block(b, HALF32)]));
    assert [] + [Block(b, HALF32)] == [Block(b, HALF32)];
    assert Extended(c, Block(b, HALF32)) == c1 && [c, d][0 := c1] == [c1, d];
    GoHuge(e, b + size + 8, [c1, d], tlab.(top := b + HALF32));
    var c2 := c.(content := Active([Block(b, HALF32), Block(b + HALF32, HALF32)]));
    assert [Block(b, HALF32)] + [Block(b + HALF32, HALF32)] == c2.content.objs;
    assert Extended(c1, Block(b + HALF32, HALF32)) == c2 && [c1, d][0 := c2] == [c2, d];
    s := Alone(b + size + 8, [c2, d], Idle, tlab.(top := b + HALF32 + HALF32));
  }

  lemma RoomForBoth(e: Env, free: int)
    requires ValidEnv(e) && Roomy(e) && free == e.end - e.bottom
    ensures GoodRequest(ReserveBytes(e) + 8, e.edenBound) && GoodRequest(8, e.edenBound)
    ensures EdenFits(free, ReserveBytes(e) + 8) && EdenFits(free - (ReserveBytes(e) + 8), 8)
    ensures 0 < ReserveBytes(e) < W32 - 8
  {
  }

  // --------------------------------------------------------------------------
  // Exactly when all runs are safe

  ghost predicate EdenWithin(e: Env)
    requires ValidEnv(e)
  {
    forall s: State :: Reachable(e, s) ==> s.top <= e.end
  }

  /** On all runs the eden top stays within eden, if and only if eden requests are below 4 GB. */
  lemma EdenWithinIff(e: Env)
    requires ValidEnv(e)
    ensures EdenWithin(e) <==> EdenSafe(e)
  {
    if EdenSafe(e) {
      forall s: State | Reachable(e, s) ensures s.top <= e.end {
        var run: seq<State> :| RunTo(e, run, s);
        EdenIsTiled(e, run, |run| - 1);
      }
    } else {
      var n := e.end - e.bottom + 1;
      var cs := EdenOverrun(e, n);
      assert e.bottom + n * W32 > e.end;
      assert Reachable(e, Alone(e.bottom + n * W32, cs, Idle, EMPTY));
    }
  }

  ghost predicate ObjectsApart(s: State)
  {
    forall k: nat, m: nat, l: nat, n: nat :: Apart(s, k, m, l, n)
  }

  lemma SafeApart(e: Env, s: State)
    requires ValidEnv(e) && TlabSafe(e) && Reachable(e, s)
    ensures ObjectsApart(s)
  {
    var run: seq<State> :| RunTo(e, run, s);
    forall k: nat, m: nat, l: nat, n: nat ensures Apart(s, k, m, l, n) {
      ObjectsDisjoint(e, run, |run| - 1, k, m, l, n);
    }
  }

  /** With room in eden for a buffer and an object: on all runs all objects are disjoint, if and only if buffer requests
      are below 2 GB, whatever the requests to eden. */
  lemma ObjectsApartIff(e: Env)
    requires ValidEnv(e) && Roomy(e)
    ensures (forall s: State :: Reachable(e, s) ==> ObjectsApart(s)) <==> TlabSafe(e)
  {
    if TlabSafe(e) {
      forall s: State | Reachable(e, s) ensures ObjectsApart(s) {
        SafeApart(e, s);
      }
    } else {
      var s := BufferOverrun(e);
      assert !ObjectsApart(s);
    }
  }

  /** Everything below the eden top is tiled within eden, every buffer is tiled and used within its bounds, and all
      objects are disjoint. */
  ghost predicate Good(e: Env, s: State)
  {
    && Tiles(Blocks(s.chunks), e.bottom, s.top) && s.top <= e.end
    && (forall k: nat :: k < |s.chunks| ==> BufferTiled(e, s, k))
    && (forall t :: t in s.threads ==> s.threads[t].tlab.top <= s.threads[t].tlab.end)
    && ObjectsApart(s)
  }

  lemma SafeGood(e: Env, s: State)
    requires ValidEnv(e) && EdenSafe(e) && TlabSafe(e) && Reachable(e, s)
    ensures Good(e, s)
  {
    var run: seq<State> :| RunTo(e, run, s);
    var i := |run| - 1;
    EdenIsTiled(e, run, i);
    RunKeepsInv(e, run, i);
    forall k: nat | k < |s.chunks| ensures BufferTiled(e, s, k) {
      BuffersAreTiled(e, run, i, k);
    }
    forall t | t in s.threads ensures s.threads[t].tlab.top <= s.threads[t].tlab.end {
      assert TlabInv(e, t, s.threads[t].tlab, s.chunks);
    }
    SafeApart(e, s);
  }

  /** All runs are good if and only if requests are below 4 GB to eden and below 2 GB to buffers. */
  lemma AllGoodIff(e: Env)
    requires ValidEnv(e)
    ensures (forall s: State :: Reachable(e, s) ==> Good(e, s)) <==> EdenSafe(e) && TlabSafe(e)
  {
    if EdenSafe(e) && TlabSafe(e) {
      forall s: State | Reachable(e, s) ensures Good(e, s) {
        SafeGood(e, s);
      }
    } else if !EdenSafe(e) {
      EdenWithinIff(e);
      var s: State :| Reachable(e, s) && s.top > e.end;
      assert !Good(e, s);
    } else {
      StartReachable(e);
      GoHuge(e, e.bottom, [], EMPTY);
      var s := Alone(e.bottom, [], Idle, EMPTY.(top := HALF32));
      assert s.threads[0].tlab.top > s.threads[0].tlab.end;
      assert Reachable(e, s) && !Good(e, s);
    }
  }
}

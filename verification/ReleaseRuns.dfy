/** Whole runs of a connection's memory: frames are received into channel pools, queued, taken out,
    gathered into messages, and pools are recycled.  Pools appear here by what Pools.Pool promises:
    what they hand out lies in one of their own blocks, apart from everything they have live. */
module ReleaseRuns {
  import Pools
  import opened Options
  import opened Wire

  /** A piece of the block with the given number. */
  datatype Piece = Piece(block: nat, offset: nat, length: nat)

  predicate Disjoint(r: Piece, s: Piece) {
    r.block != s.block || r.offset + r.length <= s.offset || s.offset + s.length <= r.offset
  }

  /** Memory of a frame: its raw bytes, of which `bytes` have arrived, and what was allocated beside
      them for decoding and for the queue. */
  datatype Held = Held(channel: uint16, raw: Piece, bytes: seq<byte>, others: set<Piece>)

  /** The pools by channel, each with its blocks and its live regions, and the contents of all blocks. */
  datatype PoolView = PoolView(blocks: set<nat>, live: set<Piece>)

  datatype Heap = Heap(pools: map<uint16, PoolView>, memory: map<nat, seq<byte>>)

  /** A message: memory of its own, of the size its header announced, and what has been put there. */
  datatype Message = Message(block: nat, size: nat, bytes: seq<byte>)

  /** `idle` is CONNECTION_STATE_IDLE (a new connection is in CONNECTION_STATE_INITIAL), `half` the
      frame in CONNECTION_STATE_BODY, `hand` the frame the library last gave out, `gathering` the
      message being read, and `messages` those returned to the application. */
  datatype State = State(
    heap: Heap,
    idle: bool,
    half: Option<Held>,
    queue: seq<Held>,
    hand: Option<Held>,
    gathering: Option<Message>,
    messages: seq<Message>)

  const INIT := State(Heap(map[], map[]), false, None, [], None, None, [])

  /** An answer of a pool; `size` is the size of the block when it is a new one. */
  datatype Grant = Grant(region: Piece, size: nat)

  datatype Event =
    | LeaveIdle
    | Greeting
    | EnterBody(channel: uint16, grant: Grant, header: seq<byte>)
    | Append(data: seq<byte>)
    | Beside(grant: Grant)
    | Finish
    | Enqueue(link: Grant)
    | PutBack(link: Grant)
    | Dequeue(index: nat)
    | BeginMessage(block: nat, size: nat)
    | Gather(from: nat, to: nat)
    | Return
    | Abandon
    | Release(channel: uint16, large: set<nat>)

  function ViewOf(h: Heap, c: uint16): PoolView {
    if c in h.pools then h.pools[c] else PoolView({}, {})
  }

  ghost predicate Possible(h: Heap, c: uint16, g: Grant) {
    var r := g.region;
    && 0 < r.length
    && if r.block in h.memory then
         r.block in ViewOf(h, c).blocks && r.offset + r.length <= |h.memory[r.block]|
         && forall o :: o in ViewOf(h, c).live ==> Disjoint(r, o)
       else r.offset + r.length <= g.size
  }

  function Granted(h: Heap, c: uint16, g: Grant): Heap {
    var v, r := ViewOf(h, c), g.region;
    Heap(h.pools[c := PoolView(v.blocks + {r.block}, v.live + {r})],
         if r.block in h.memory then h.memory else h.memory[r.block := seq(g.size, _ => 0)])
  }

  function Contents(h: Heap, r: Piece, n: nat): seq<byte> {
    if r.block in h.memory && r.offset + n <= |h.memory[r.block]| then h.memory[r.block][r.offset..r.offset + n] else []
  }

  function Overwrite(b: seq<byte>, offset: nat, data: seq<byte>): seq<byte>
    requires offset + |data| <= |b|
  {
    b[..offset] + data + b[offset + |data|..]
  }

  /** Puts `data` behind the first `have` bytes of a region. */
  function WriteAt(h: Heap, r: Piece, have: nat, data: seq<byte>): Heap {
    if r.block in h.memory && r.offset + have + |data| <= |h.memory[r.block]| then
      h.(memory := h.memory[r.block := Overwrite(h.memory[r.block], r.offset + have, data)])
    else h
  }

  function NewBlock(h: Heap, block: nat, size: nat): Heap {
    h.(memory := h.memory[block := seq(size, _ => 0)])
  }

  function Place(m: Message): Piece { Piece(m.block, 0, m.size) }

  predicate Queued(s: State, c: uint16) {
    exists i :: 0 <= i < |s.queue| && s.queue[i].channel == c
  }

  ghost predicate Enabled(s: State, e: Event) {
    match e
    case LeaveIdle => s.idle
    case Greeting => !s.idle && s.half.None?
    case EnterBody(c, g, header) =>
      !s.idle && s.half.None? && Possible(s.heap, c, g) && |header| <= g.region.length
    case Append(data) =>
      s.half.Some? && |s.half.value.bytes| + |data| <= s.half.value.raw.length
    case Beside(g) => s.half.Some? && Possible(s.heap, s.half.value.channel, g)
    case Finish => s.half.Some?
    case Enqueue(link) => s.hand.Some? && Possible(s.heap, s.hand.value.channel, link)
    case PutBack(link) => s.hand.Some? && Possible(s.heap, s.hand.value.channel, link)
    case Dequeue(i) => i < |s.queue|
    case BeginMessage(block, size) => s.gathering.None? && block !in s.heap.memory
    case Gather(from, to) =>
      && s.gathering.Some? && s.hand.Some? && from <= to <= |s.hand.value.bytes|
      && |s.gathering.value.bytes| + (to - from) <= s.gathering.value.size
    case Return => s.gathering.Some? && |s.gathering.value.bytes| == s.gathering.value.size
    case Abandon => s.gathering.Some?
    case Release(c, large) => large <= ViewOf(s.heap, c).blocks
  }

  function Joined(f: Held, r: Piece): Held {
    f.(others := f.others + {r})
  }

  /** One step.  A protocol header makes a connection idle without a frame; a frame enters the queue with
      the memory of its link and copy; taking a frame out of the queue cuts off the frames in front of
      it; a message gathers parts of the frames given out, and is returned when it is complete or given
      up; recycling a pool ends the life of all its memory, gives its large blocks back, and is the
      point after which the application must not use a frame of that channel any more. */
  function Step(s: State, e: Event): State
    requires Enabled(s, e)
  {
    match e
    case LeaveIdle => s.(idle := false)
    case Greeting => s.(idle := true)
    case EnterBody(c, g, header) =>
      s.(heap := WriteAt(Granted(s.heap, c, g), g.region, 0, header), half := Some(Held(c, g.region, header, {})))
    case Append(data) =>
      var f := s.half.value;
      s.(heap := WriteAt(s.heap, f.raw, |f.bytes|, data), half := Some(f.(bytes := f.bytes + data)))
    case Beside(g) =>
      var f := s.half.value;
      s.(heap := Granted(s.heap, f.channel, g), half := Some(Joined(f, g.region)))
    case Finish => s.(half := None, idle := true, hand := s.half)
    case Enqueue(link) =>
      var f := s.hand.value;
      s.(heap := Granted(s.heap, f.channel, link), hand := None, queue := s.queue + [Joined(f, link.region)])
    case PutBack(link) =>
      var f := s.hand.value;
      s.(heap := Granted(s.heap, f.channel, link), hand := None, queue := [Joined(f, link.region)] + s.queue)
    case Dequeue(i) => s.(hand := Some(s.queue[i]), queue := s.queue[i + 1..])
    case BeginMessage(block, size) =>
      s.(heap := NewBlock(s.heap, block, size), gathering := Some(Message(block, size, [])))
    case Gather(from, to) =>
      var m, f := s.gathering.value, s.hand.value;
      var part := Contents(s.heap, f.raw, |f.bytes|);
      if to <= |part| then
        s.(heap := WriteAt(s.heap, Place(m), |m.bytes|, part[from..to]),
           gathering := Some(m.(bytes := m.bytes + f.bytes[from..to])))
      else s
    case Return => s.(messages := s.messages + [s.gathering.value], gathering := None)
    case Abandon =>
      s.(heap := s.heap.(memory := s.heap.memory - {s.gathering.value.block}), gathering := None)
    case Release(c, large) =>
      if !s.idle || Queued(s, c) || c !in s.heap.pools then s
      else s.(heap := Heap(s.heap.pools[c := PoolView(s.heap.pools[c].blocks - large, {})], s.heap.memory - large),
              hand := if s.hand.Some? && s.hand.value.channel == c then None else s.hand)
  }

  // ---------- the invariant ----------

  ghost predicate BlocksThere(h: Heap) {
    forall c, b :: c in h.pools && b in h.pools[c].blocks ==> b in h.memory
  }

  ghost predicate PoolsApart(h: Heap) {
    forall c, d :: c in h.pools && d in h.pools && c != d ==> h.pools[c].blocks !! h.pools[d].blocks
  }

  ghost predicate LiveInside(h: Heap) {
    forall c, r :: c in h.pools && r in h.pools[c].live ==>
      0 < r.length && r.block in h.pools[c].blocks && r.block in h.memory && r.offset + r.length <= |h.memory[r.block]|
  }

  ghost predicate LiveDisjoint(h: Heap) {
    forall c, q, r :: c in h.pools && q in h.pools[c].live && r in h.pools[c].live && q != r ==> Disjoint(q, r)
  }

  ghost predicate HeapInv(h: Heap) {
    BlocksThere(h) && PoolsApart(h) && LiveInside(h) && LiveDisjoint(h)
  }

  ghost predicate Live(h: Heap, c: uint16, r: Piece) {
    c in h.pools && r in h.pools[c].live
  }

  /** All memory of the frame is live in the pool of its channel, and its bytes are there. */
  ghost predicate Safe(h: Heap, f: Held) {
    && Live(h, f.channel, f.raw) && (forall r :: r in f.others ==> Live(h, f.channel, r))
    && |f.bytes| <= f.raw.length && Contents(h, f.raw, |f.bytes|) == f.bytes
  }

  /** What has been gathered of the message is there, in memory of no pool. */
  ghost predicate Kept(h: Heap, m: Message) {
    && m.block in h.memory && |h.memory[m.block]| == m.size && |m.bytes| <= m.size
    && h.memory[m.block][..|m.bytes|] == m.bytes
    && forall c :: c in h.pools ==> m.block !in h.pools[c].blocks
  }

  ghost predicate Inv(s: State) {
    && HeapInv(s.heap)
    && (forall i :: 0 <= i < |s.queue| ==> Safe(s.heap, s.queue[i]))
    && (s.hand.Some? ==> Safe(s.heap, s.hand.value))
    && (s.half.Some? ==>
          && !s.idle && Safe(s.heap, s.half.value)
          && (forall i :: 0 <= i < |s.queue| ==> s.queue[i].raw != s.half.value.raw)
          && (s.hand.Some? ==> s.hand.value.raw != s.half.value.raw))
    && MessagesInv(s.heap, s.gathering, s.messages)
  }

  ghost predicate MessagesInv(h: Heap, gathering: Option<Message>, messages: seq<Message>) {
    && (forall i :: 0 <= i < |messages| ==> Kept(h, messages[i]) && |messages[i].bytes| == messages[i].size)
    && (gathering.Some? ==>
          && Kept(h, gathering.value)
          && forall i :: 0 <= i < |messages| ==> messages[i].block != gathering.value.block)
  }

  // ---------- what a step of the heap leaves alone ----------

  /** Handing out memory disturbs nothing, and what is handed out is new. */
  lemma GrantKeeps(h: Heap, c: uint16, g: Grant)
    requires HeapInv(h) && Possible(h, c, g)
    ensures var t := Granted(h, c, g);
            && HeapInv(t) && Live(t, c, g.region)
            && (forall f :: Safe(h, f) ==> Safe(t, f) && f.raw != g.region)
            && (forall m :: Kept(h, m) ==> Kept(t, m))
  {
    var t, r := Granted(h, c, g), g.region;
    GrantedHeap(h, c, g);
    forall f | Safe(h, f)
      ensures Safe(t, f) && f.raw != r
    {
      LiveElsewhere(h, c, g, f.channel, f.raw);
    }
  }

  lemma GrantedHeap(h: Heap, c: uint16, g: Grant)
    requires HeapInv(h) && Possible(h, c, g)
    ensures HeapInv(Granted(h, c, g))
  {
    hide BlocksThere, PoolsApart, LiveInside, LiveDisjoint, Possible;
    GrantedBlocks(h, c, g);
    GrantedLive(h, c, g);
  }

  lemma GrantedBlocks(h: Heap, c: uint16, g: Grant)
    requires HeapInv(h) && Possible(h, c, g)
    ensures BlocksThere(Granted(h, c, g)) && PoolsApart(Granted(h, c, g))
  {
    hide LiveInside, LiveDisjoint;
    var t := Granted(h, c, g);
    forall d | d in t.pools && d != c
      ensures t.pools[d].blocks !! t.pools[c].blocks
    {
      assert d in h.pools;
    }
  }

  lemma GrantedLive(h: Heap, c: uint16, g: Grant)
    requires HeapInv(h) && Possible(h, c, g)
    ensures LiveInside(Granted(h, c, g)) && LiveDisjoint(Granted(h, c, g))
  {
    hide PoolsApart;
    var t := Granted(h, c, g);
    forall d, q | d in t.pools && q in t.pools[d].live
      ensures q.block in t.pools[d].blocks && q.block in t.memory
      ensures 0 < q.length && q.offset + q.length <= |t.memory[q.block]|
      ensures d == c && q != g.region ==> Disjoint(g.region, q) && Disjoint(q, g.region)
    {
      if q != g.region || d != c {
        assert d in h.pools && q in h.pools[d].live && q.block in h.memory;
      }
    }
  }

  lemma LiveElsewhere(h: Heap, c: uint16, g: Grant, d: uint16, q: Piece)
    requires HeapInv(h) && Possible(h, c, g) && Live(h, d, q)
    ensures q != g.region
  {
    assert q.block in h.pools[d].blocks;
    assert c == d && q.block in h.memory ==> Disjoint(g.region, q) || q.block != g.region.block;
  }

  /** Different live regions share no byte, whatever pools they are from. */
  lemma LiveApart(h: Heap, c: uint16, q: Piece, d: uint16, r: Piece)
    requires HeapInv(h) && Live(h, c, q) && Live(h, d, r) && q != r
    ensures Disjoint(q, r)
  {
    if c != d {
      assert q.block in h.pools[c].blocks && r.block in h.pools[d].blocks;
    }
  }

  lemma OverwriteElsewhere(b: seq<byte>, offset: nat, data: seq<byte>, lo: nat, hi: nat)
    requires offset + |data| <= |b| && lo <= hi <= |b| && (hi <= offset || offset + |data| <= lo)
    ensures Overwrite(b, offset, data)[lo..hi] == b[lo..hi]
  {
    var t := Overwrite(b, offset, data);
    assert forall k :: 0 <= k < offset || offset + |data| <= k < |b| ==> t[k] == b[k];
  }

  lemma OverwriteHere(b: seq<byte>, start: nat, have: nat, data: seq<byte>)
    requires start + have + |data| <= |b|
    ensures Overwrite(b, start + have, data)[start..start + have + |data|] == b[start..start + have] + data
  {
  }

  lemma WriteKeepsHeap(h: Heap, r: Piece, have: nat, data: seq<byte>)
    requires HeapInv(h)
    ensures HeapInv(WriteAt(h, r, have, data)) && WriteAt(h, r, have, data).pools == h.pools
  {
    hide PoolsApart, LiveDisjoint;
    var t := WriteAt(h, r, have, data);
    assert t.memory.Keys == h.memory.Keys && forall b :: b in h.memory ==> |t.memory[b]| == |h.memory[b]|;
    assert BlocksThere(t) && LiveInside(t) && PoolsApart(t) && LiveDisjoint(t) by {
      SamePools(h, t);
    }
  }

  lemma SamePools(h: Heap, t: Heap)
    requires PoolsApart(h) && LiveDisjoint(h) && t.pools == h.pools
    ensures PoolsApart(t) && LiveDisjoint(t)
  {
  }

  /** A frame stays as it is when its own bytes do. */
  lemma WriteKeepsFrame(h: Heap, f: Held, r: Piece, have: nat, data: seq<byte>)
    requires HeapInv(h) && Safe(h, f) && have + |data| <= r.length && Disjoint(f.raw, r)
    ensures Safe(WriteAt(h, r, have, data), f)
  {
    hide BlocksThere, PoolsApart, LiveDisjoint;
    if r.block in h.memory && r.offset + have + |data| <= |h.memory[r.block]| && f.raw.block == r.block {
      OverwriteElsewhere(h.memory[r.block], r.offset + have, data, f.raw.offset, f.raw.offset + |f.bytes|);
    }
  }

  /** A write into a live region leaves every frame alone that does not start there. */
  lemma WriteKeeps(h: Heap, c: uint16, r: Piece, have: nat, data: seq<byte>)
    requires HeapInv(h) && Live(h, c, r) && have + |data| <= r.length
    ensures var t := WriteAt(h, r, have, data);
            && HeapInv(t) && t.pools == h.pools
            && (forall f :: Safe(h, f) && f.raw != r ==> Safe(t, f))
            && (forall m :: Kept(h, m) ==> Kept(t, m))
            && Contents(t, r, have + |data|) == Contents(h, r, have) + data
  {
    WriteKeepsHeap(h, r, have, data);
    WriteLands(h, c, r, have, data);
    forall f | Safe(h, f) && f.raw != r
      ensures Safe(WriteAt(h, r, have, data), f)
    {
      LiveApart(h, f.channel, f.raw, c, r);
      WriteKeepsFrame(h, f, r, have, data);
    }
  }

  lemma WriteLands(h: Heap, c: uint16, r: Piece, have: nat, data: seq<byte>)
    requires HeapInv(h) && Live(h, c, r) && have + |data| <= r.length
    ensures var t := WriteAt(h, r, have, data);
            && (forall m :: Kept(h, m) ==> Kept(t, m))
            && Contents(t, r, have + |data|) == Contents(h, r, have) + data
  {
    hide PoolsApart, LiveDisjoint;
    assert r.block in h.pools[c].blocks && r.block in h.memory && r.offset + r.length <= |h.memory[r.block]|;
    OverwriteHere(h.memory[r.block], r.offset, have, data);
  }

  /** A write into the message being gathered leaves all frames and all other messages alone. */
  lemma GatherKeepsHeap(h: Heap, m: Message, data: seq<byte>)
    requires HeapInv(h) && Kept(h, m) && |m.bytes| + |data| <= m.size
    ensures var t := WriteAt(h, Place(m), |m.bytes|, data);
            && HeapInv(t) && Kept(t, m.(bytes := m.bytes + data))
            && (forall f :: Safe(h, f) ==> Safe(t, f))
            && (forall n :: Kept(h, n) && n.block != m.block ==> Kept(t, n))
  {
    var t := WriteAt(h, Place(m), |m.bytes|, data);
    WriteKeepsHeap(h, Place(m), |m.bytes|, data);
    OverwriteHere(h.memory[m.block], 0, |m.bytes|, data);
    forall f | Safe(h, f) ensures Safe(t, f) {
      LiveNotOwned(h, f, m);
      WriteKeepsFrame(h, f, Place(m), |m.bytes|, data);
    }
  }

  lemma LiveNotOwned(h: Heap, f: Held, m: Message)
    requires HeapInv(h) && Safe(h, f) && Kept(h, m)
    ensures f.raw.block != m.block
  {
    hide BlocksThere, PoolsApart, LiveDisjoint, Contents;
  }

  /** Recycling a pool leaves the frames of all other channels and all messages alone. */
  lemma ReleaseKeepsHeap(h: Heap, c: uint16, large: set<nat>)
    requires HeapInv(h) && c in h.pools && large <= h.pools[c].blocks
    ensures var t := Heap(h.pools[c := PoolView(h.pools[c].blocks - large, {})], h.memory - large);
            && HeapInv(t)
            && (forall f :: Safe(h, f) && f.channel != c ==> Safe(t, f))
            && (forall m :: Kept(h, m) ==> Kept(t, m))
  {
    var t := Heap(h.pools[c := PoolView(h.pools[c].blocks - large, {})], h.memory - large);
    forall f | Safe(h, f) && f.channel != c
      ensures Safe(t, f)
    {
      assert f.raw.block in h.pools[f.channel].blocks;
    }
  }

  lemma NewBlockKeeps(h: Heap, block: nat, size: nat)
    requires HeapInv(h) && block !in h.memory
    ensures var t := NewBlock(h, block, size);
            && HeapInv(t) && Kept(t, Message(block, size, []))
            && (forall f :: Safe(h, f) ==> Safe(t, f))
            && (forall m :: Kept(h, m) ==> Kept(t, m))
  {
  }

  lemma FreeingKeeps(h: Heap, m: Message)
    requires HeapInv(h) && Kept(h, m)
    ensures var t := h.(memory := h.memory - {m.block});
            && HeapInv(t)
            && (forall f :: Safe(h, f) ==> Safe(t, f))
            && (forall n :: Kept(h, n) && n.block != m.block ==> Kept(t, n))
  {
    forall f | Safe(h, f) ensures f.raw.block != m.block {
      LiveNotOwned(h, f, m);
    }
  }

  lemma SafeJoined(h: Heap, f: Held, r: Piece)
    requires Safe(h, f) && Live(h, f.channel, r)
    ensures Safe(h, Joined(f, r))
  {
  }

  // ---------- every step keeps the invariant ----------

  lemma EnterBodyKeeps(s: State, c: uint16, g: Grant, header: seq<byte>)
    requires Inv(s) && Enabled(s, EnterBody(c, g, header))
    ensures Inv(Step(s, EnterBody(c, g, header)))
  {
    GrantKeeps(s.heap, c, g);
    var h := Granted(s.heap, c, g);
    WriteKeeps(h, c, g.region, 0, header);
    var t := WriteAt(h, g.region, 0, header);
    assert Contents(h, g.region, 0) + header == header;
    assert Safe(t, Held(c, g.region, header, {}));
    hide HeapInv, Safe, Kept, WriteAt, Granted, Possible;
  }

  lemma AppendKeeps(s: State, data: seq<byte>)
    requires Inv(s) && Enabled(s, Append(data))
    ensures Inv(Step(s, Append(data)))
  {
    var f := s.half.value;
    WriteKeeps(s.heap, f.channel, f.raw, |f.bytes|, data);
    assert Safe(WriteAt(s.heap, f.raw, |f.bytes|, data), f.(bytes := f.bytes + data));
    hide HeapInv, Safe, Kept, WriteAt;
  }

  lemma BesideKeeps(s: State, g: Grant)
    requires Inv(s) && Enabled(s, Beside(g))
    ensures Inv(Step(s, Beside(g)))
  {
    hide HeapInv, Safe, Kept, Granted, Possible;
    GrantKeeps(s.heap, s.half.value.channel, g);
    SafeJoined(Granted(s.heap, s.half.value.channel, g), s.half.value, g.region);
  }

  lemma EnqueueKeeps(s: State, e: Event)
    requires Inv(s) && Enabled(s, e) && (e.Enqueue? || e.PutBack?)
    ensures Inv(Step(s, e))
  {
    hide HeapInv, Safe, Kept, Granted, Possible;
    GrantKeeps(s.heap, s.hand.value.channel, e.link);
    SafeJoined(Granted(s.heap, s.hand.value.channel, e.link), s.hand.value, e.link.region);
  }

  lemma BeginKeeps(s: State, block: nat, size: nat)
    requires Inv(s) && Enabled(s, BeginMessage(block, size))
    ensures Inv(Step(s, BeginMessage(block, size)))
  {
    hide HeapInv, Safe, NewBlock;
    NewBlockKeeps(s.heap, block, size);
  }

  lemma GatherKeeps(s: State, from: nat, to: nat)
    requires Inv(s) && Enabled(s, Gather(from, to))
    ensures Inv(Step(s, Gather(from, to)))
  {
    hide HeapInv, Kept, WriteAt, Contents;
    var f := s.hand.value;
    assert Contents(s.heap, f.raw, |f.bytes|) == f.bytes;
    GatherKeepsHeap(s.heap, s.gathering.value, f.bytes[from..to]);
  }

  lemma AbandonKeeps(s: State)
    requires Inv(s) && Enabled(s, Abandon)
    ensures Inv(Step(s, Abandon))
  {
    hide HeapInv, Safe, Kept;
    FreeingKeeps(s.heap, s.gathering.value);
  }

  lemma ReleaseKeeps(s: State, c: uint16, large: set<nat>)
    requires Inv(s) && Enabled(s, Release(c, large))
    ensures Inv(Step(s, Release(c, large)))
  {
    hide HeapInv, Safe, Kept;
    if c in s.heap.pools {
      ReleaseKeepsHeap(s.heap, c, large);
    }
  }

  lemma StepKeeps(s: State, e: Event)
    requires Inv(s) && Enabled(s, e)
    ensures Inv(Step(s, e))
  {
    hide HeapInv, Safe, Kept, Granted, Possible, WriteAt, Contents;
    match e
    case EnterBody(c, g, header) => EnterBodyKeeps(s, c, g, header);
    case Append(data) => AppendKeeps(s, data);
    case Beside(g) => BesideKeeps(s, g);
    case Enqueue(_) => EnqueueKeeps(s, e);
    case PutBack(_) => EnqueueKeeps(s, e);
    case BeginMessage(block, size) => BeginKeeps(s, block, size);
    case Gather(from, to) => GatherKeeps(s, from, to);
    case Abandon => AbandonKeeps(s);
    case Release(c, large) => ReleaseKeeps(s, c, large);
    case _ =>
  }

  // ---------- whole runs ----------

  /** A run from a new connection: each state follows from the one before by an enabled event. */
  ghost predicate IsRun(trace: seq<State>, events: seq<Event>) {
    && |trace| == |events| + 1 && trace[0] == INIT
    && forall i :: 0 <= i < |events| ==> Enabled(trace[i], events[i]) && trace[i + 1] == Step(trace[i], events[i])
  }

  lemma {:induction false} RunKeepsInv(trace: seq<State>, events: seq<Event>, k: nat)
    requires IsRun(trace, events) && k < |trace|
    ensures Inv(trace[k])
  {
    if 0 < k {
      RunKeepsInv(trace, events, k - 1);
      StepKeeps(trace[k - 1], events[k - 1]);
    }
  }

  /** At every point of every run, the memory of every queued frame and of the half received frame is
      live, and holds the bytes that were received: no recycling has touched it. */
  lemma NothingReachableIsRecycled(trace: seq<State>, events: seq<Event>, k: nat, f: Held)
    requires IsRun(trace, events) && k < |trace|
    requires f in trace[k].queue || trace[k].half == Some(f)
    ensures var h := trace[k].heap;
            && Live(h, f.channel, f.raw) && (forall r :: r in f.others ==> Live(h, f.channel, r))
            && Contents(h, f.raw, |f.bytes|) == f.bytes
  {
    RunKeepsInv(trace, events, k);
  }

  /** Memory handed out at any point of a run is disjoint from all memory of the queued frames, of
      the half received frame and of the frame last given out. */
  lemma GrantsAvoidReachable(trace: seq<State>, events: seq<Event>, k: nat, c: uint16, g: Grant, f: Held, r: Piece)
    requires IsRun(trace, events) && k < |trace| && Possible(trace[k].heap, c, g)
    requires f in trace[k].queue || trace[k].half == Some(f) || trace[k].hand == Some(f)
    requires r == f.raw || r in f.others
    ensures Disjoint(r, g.region)
  {
    RunKeepsInv(trace, events, k);
    var h := trace[k].heap;
    assert Safe(h, f);
    GrantKeeps(h, c, g);
    LiveElsewhere(h, c, g, f.channel, r);
    assert Live(Granted(h, c, g), f.channel, r);
    LiveApart(Granted(h, c, g), f.channel, r, c, g.region);
  }

  /** A message given to the application stays what it is through the rest of the run. */
  lemma {:induction false} MessagesNeverChange(trace: seq<State>, events: seq<Event>, j: nat, k: nat, i: nat)
    requires IsRun(trace, events) && j <= k < |trace| && i < |trace[j].messages|
    ensures i < |trace[k].messages| && trace[k].messages[i] == trace[j].messages[i]
    ensures var m, memory := trace[j].messages[i], trace[k].heap.memory; m.block in memory && memory[m.block] == m.bytes
    decreases k - j
  {
    hide HeapInv, Safe, Enabled, Step;
    RunKeepsInv(trace, events, k);
    if j < k {
      MessagesNeverChange(trace, events, j, k - 1, i);
      StepKeepsMessages(trace[k - 1], events[k - 1]);
      assert trace[k] == Step(trace[k - 1], events[k - 1]);
    }
    var m := trace[k].messages[i];
    assert trace[k].heap.memory[m.block][..|m.bytes|] == trace[k].heap.memory[m.block];
  }

  lemma StepKeepsMessages(s: State, e: Event)
    requires Enabled(s, e)
    ensures s.messages <= Step(s, e).messages
  {
    hide Granted, WriteAt, Contents, NewBlock, Possible;
  }

  // ---------- what the pools have to do with it ----------

  function PieceOf(r: Pools.Region, id: Pools.Block -> nat): Piece {
    Piece(id(r.block), r.offset, r.length)
  }

  /** A pool as these runs see it, with its blocks numbered. */
  ghost function ViewOfPool(s: Pools.Snapshot, id: Pools.Block -> nat): PoolView {
    PoolView(set b | b in s.obtained && b !in s.freed :: id(b), set r | r in s.live :: PieceOf(r, id))
  }

  /** The heap shows the pool of a channel as it is. */
  ghost predicate Shows(h: Heap, c: uint16, s: Pools.Snapshot, id: Pools.Block -> nat) {
    && ViewOf(h, c) == ViewOfPool(s, id)
    && (forall a, b :: a in s.obtained && b in s.obtained && id(a) == id(b) ==> a == b)
    && forall b :: b in s.obtained && b !in s.freed ==> id(b) in h.memory && |h.memory[id(b)]| == b.Length
  }

  /** An answer of the pool is a grant that the runs count with: Serves is what Pools.Pool.Alloc
      promises. */
  lemma AllocIsGrant(h: Heap, c: uint16, s: Pools.Snapshot, t: Pools.Snapshot, amount: nat, r: Pools.Region,
                     id: Pools.Block -> nat)
    requires Pools.Ok(s) && Pools.Ok(t) && Pools.Serves(s, t, amount, Options.Some(r))
    requires Shows(h, c, s, id) && (r.block !in s.obtained ==> id(r.block) !in h.memory)
    requires forall b :: b in s.obtained && id(b) == id(r.block) ==> b == r.block
    ensures var g := Grant(PieceOf(r, id), r.block.Length);
            Possible(h, c, g) && Shows(Granted(h, c, g), c, t, id)
  {
    hide Pools.Ok;
    assert r == t.live[|s.live|];
    Pools.LiveIsObtained(t, r);
    GrantIsApart(s, t, amount, r, id);
    assert forall q :: q in t.live <==> q in s.live || q == r;
    assert ViewOfPool(t, id).live == ViewOfPool(s, id).live + {PieceOf(r, id)};
    assert ViewOfPool(t, id).blocks == ViewOfPool(s, id).blocks + {id(r.block)};
  }

  lemma GrantIsApart(s: Pools.Snapshot, t: Pools.Snapshot, amount: nat, r: Pools.Region, id: Pools.Block -> nat)
    requires Pools.Ok(s) && Pools.Serves(s, t, amount, Options.Some(r))
    requires forall b :: b in s.obtained && id(b) == id(r.block) ==> b == r.block
    ensures forall o :: o in ViewOfPool(s, id).live ==> Disjoint(PieceOf(r, id), o)
  {
    hide Pools.Ok;
    forall o | o in ViewOfPool(s, id).live ensures Disjoint(PieceOf(r, id), o) {
      var q :| q in s.live && PieceOf(q, id) == o;
      var i :| 0 <= i < |s.live| && s.live[i] == q;
      assert Pools.Disjoint(s.live[i], r);
      Pools.LiveIsObtained(s, q);
    }
  }

  /** Recycling the pool is the release of its channel that gives back its large blocks. */
  lemma RecycleIsRelease(h: Heap, c: uint16, s: Pools.Snapshot, id: Pools.Block -> nat)
    requires Pools.Ok(s) && c in h.pools && Shows(h, c, s, id)
    ensures var large := set b | b in s.large :: id(b);
            && large <= ViewOf(h, c).blocks
            && Shows(Heap(h.pools[c := PoolView(h.pools[c].blocks - large, {})], h.memory - large), c,
                     Pools.Recycled(s), id)
  {
    hide Pools.LiveOk, Pools.AnswersOk, Pools.CursorOk;
    var large := set b | b in s.large :: id(b);
    var t := Pools.Recycled(s);
    forall b | b in s.large ensures b in s.obtained && b !in s.freed {
      assert b in Pools.ToSet(s.large);
    }
    assert forall b :: b in t.freed <==> b in s.freed || b in s.large;
    assert ViewOfPool(t, id).blocks == ViewOfPool(s, id).blocks - large;
    assert ViewOfPool(t, id).live == {};
  }
}

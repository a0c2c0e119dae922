/** The memory pool of amqp_mem.c: a bump allocator over pages that are kept when the pool is
    recycled, with separate blocks for requests larger than a page. */
module Pools {
  import opened Options
  import opened Wire

  type Block = array<byte>

  /** A piece of memory handed out to a caller. */
  datatype Region = Region(block: Block, offset: nat, length: nat)

  predicate Disjoint(r: Region, s: Region) {
    r.block != s.block || r.offset + r.length <= s.offset || s.offset + s.length <= r.offset
  }

  function RoundUp(amount: nat): (r: nat)
    ensures r % 8 == 0 && amount <= r < amount + 8
  {
    (amount + 7) / 8 * 8
  }

  // ---------- where a request goes ----------

  /** Number of pages in use and bytes used of the last of them. */
  datatype Cursor = Cursor(pages: nat, used: nat)

  const START := Cursor(0, 0)

  datatype Place = Nowhere | Large(size: nat) | Page(index: nat, offset: nat)

  function PlaceOf(pagesize: nat, at: Cursor, amount: nat): Place {
    var size := RoundUp(amount);
    if amount == 0 then Nowhere
    else if pagesize < size then Large(size)
    else if 0 < at.pages && at.used + size <= pagesize then Page(at.pages - 1, at.used)
    else Page(at.pages, 0)
  }

  function Advance(pagesize: nat, at: Cursor, amount: nat): (next: Cursor)
    ensures at.pages <= next.pages
  {
    match PlaceOf(pagesize, at, amount)
    case Page(i, offset) => Cursor(i + 1, offset + RoundUp(amount))
    case _ => at
  }

  /** The cursor after serving a list of requests from an empty or recycled pool. */
  function AfterAll(pagesize: nat, amounts: seq<nat>): Cursor {
    if amounts == [] then START
    else Advance(pagesize, AfterAll(pagesize, amounts[..|amounts| - 1]), amounts[|amounts| - 1])
  }

  /** Where request number `i` of a list goes. */
  function PlaceIn(pagesize: nat, amounts: seq<nat>, i: nat): Place
    requires i < |amounts|
  {
    PlaceOf(pagesize, AfterAll(pagesize, amounts[..i]), amounts[i])
  }

  lemma {:induction false} AfterAllGrows(pagesize: nat, amounts: seq<nat>, k: nat)
    requires k <= |amounts|
    ensures AfterAll(pagesize, amounts[..k]).pages <= AfterAll(pagesize, amounts).pages
    decreases |amounts|
  {
    if k < |amounts| {
      AfterAllGrows(pagesize, amounts[..|amounts| - 1], k);
      assert amounts[..|amounts| - 1][..k] == amounts[..k];
    } else {
      assert amounts[..k] == amounts;
    }
  }

  lemma AfterOneMore(pagesize: nat, amounts: seq<nat>, amount: nat)
    ensures AfterAll(pagesize, amounts + [amount]) == Advance(pagesize, AfterAll(pagesize, amounts), amount)
  {
    assert (amounts + [amount])[..|amounts|] == amounts;
  }

  // ---------- the state of a pool as a value ----------

  function ToSet<T>(s: seq<T>): set<T> { set x | x in s }

  ghost predicate Distinct<T>(s: seq<T>) {
    forall i, j :: 0 <= i < j < |s| ==> s[i] != s[j]
  }

  ghost predicate Apart<T>(s: seq<T>, t: seq<T>) {
    forall x :: x in s ==> x !in t
  }

  /** The fields of a pool, and its history: what is live and how the requests since the last
      recycling were answered, the blocks ever obtained from the system, and those given back, in
      order. */
  datatype Snapshot = Snapshot(
    pagesize: nat, pages: seq<Block>, large: seq<Block>, next: nat, used: nat,
    live: seq<Region>, served: seq<nat>, answers: seq<Option<Region>>,
    obtained: set<Block>, freed: seq<Block>)

  /** Every block ever obtained is recorded once or has been given back once. */
  ghost predicate BlocksOk(s: Snapshot) {
    && (forall i :: 0 <= i < |s.pages| ==> s.pages[i].Length == s.pagesize)
    && Distinct(s.pages) && Distinct(s.large) && Distinct(s.freed)
    && Apart(s.pages, s.large) && Apart(s.pages, s.freed) && Apart(s.large, s.freed)
    && s.obtained == ToSet(s.pages) + ToSet(s.large) + ToSet(s.freed)
  }

  ghost predicate CursorOk(s: Snapshot) {
    && s.next <= |s.pages| && s.used <= s.pagesize && s.used % 8 == 0 && (s.next == 0 ==> s.used == 0)
    && Cursor(s.next, s.used) == AfterAll(s.pagesize, s.served)
  }

  /** A region lies 8-byte aligned within a recorded block, and on the page in use below the mark. */
  ghost predicate Placed(s: Snapshot, r: Region) {
    && 0 < r.length && r.offset % 8 == 0 && r.offset + r.length <= r.block.Length
    && (r.block in s.large || OnPage(s, r))
  }

  ghost predicate OnPage(s: Snapshot, r: Region) {
    exists i :: 0 <= i < s.next <= |s.pages| && s.pages[i] == r.block
                && (i == s.next - 1 ==> r.offset + r.length <= s.used)
  }

  ghost predicate LiveOk(s: Snapshot) {
    && (forall i :: 0 <= i < |s.live| ==> Placed(s, s.live[i]))
    && (forall i, j :: 0 <= i < j < |s.live| ==> Disjoint(s.live[i], s.live[j]))
  }

  /** The answer to a request that goes to the given place. */
  predicate At(pages: seq<Block>, place: Place, amount: nat, r: Option<Region>) {
    match place
    case Nowhere => r == None
    case Large(size) => r.Some? && r.value.offset == 0 && r.value.length == r.value.block.Length == size
    case Page(i, offset) => i < |pages| && r == Some(Region(pages[i], offset, RoundUp(amount)))
  }

  ghost predicate AnswersOk(s: Snapshot) {
    && |s.answers| == |s.served|
    && forall i :: 0 <= i < |s.served| ==>
         At(s.pages, PlaceIn(s.pagesize, s.served, i), s.served[i], s.answers[i])
  }

  ghost predicate Ok(s: Snapshot) {
    0 < s.pagesize && BlocksOk(s) && CursorOk(s) && LiveOk(s) && AnswersOk(s)
  }

  // ---------- its steps ----------

  function Answer(s: Snapshot, amount: nat, r: Option<Region>): Snapshot {
    s.(live := if r.Some? then s.live + [r.value] else s.live,
       served := s.served + [amount], answers := s.answers + [r])
  }

  /** A request larger than a page gets a block of its own. */
  function TakeLarge(s: Snapshot, amount: nat, block: Block): Snapshot {
    var t := s.(large := s.large + [block], obtained := s.obtained + {block});
    Answer(t, amount, Some(Region(block, 0, RoundUp(amount))))
  }

  /** The next bytes of the page in use. */
  function TakeHere(s: Snapshot, amount: nat): Snapshot
    requires 0 < s.next <= |s.pages|
  {
    Answer(s.(used := s.used + RoundUp(amount)), amount, Some(Region(s.pages[s.next - 1], s.used, RoundUp(amount))))
  }

  function AddPage(s: Snapshot, block: Block): Snapshot {
    s.(pages := s.pages + [block], obtained := s.obtained + {block})
  }

  /** The start of the next page. */
  function TakeNext(s: Snapshot, amount: nat): Snapshot
    requires s.next < |s.pages|
  {
    Answer(s.(next := s.next + 1, used := RoundUp(amount)), amount, Some(Region(s.pages[s.next], 0, RoundUp(amount))))
  }

  function Recycled(s: Snapshot): Snapshot {
    s.(large := [], next := 0, used := 0, live := [], served := [], answers := [], freed := s.freed + s.large)
  }

  function Emptied(s: Snapshot): Snapshot {
    Recycled(s).(pages := [], freed := s.freed + s.large + s.pages)
  }

  lemma RecycledTwice(s: Snapshot)
    ensures Recycled(Recycled(s)) == Recycled(s)
  {
    assert s.freed + s.large + [] == s.freed + s.large;
  }

  lemma NewBlockApart(s: Snapshot, block: Block)
    requires BlocksOk(s) && block !in s.obtained
    ensures block !in s.pages && block !in s.large && block !in s.freed
  {
  }

  lemma LargeKeepsBlocks(s: Snapshot, amount: nat, block: Block)
    requires BlocksOk(s) && block !in s.obtained
    ensures BlocksOk(TakeLarge(s, amount, block))
  {
    NewBlockApart(s, block);
    assert ToSet(s.large + [block]) == ToSet(s.large) + {block};
  }

  lemma PageKeepsBlocks(s: Snapshot, block: Block)
    requires BlocksOk(s) && block !in s.obtained && block.Length == s.pagesize
    ensures BlocksOk(AddPage(s, block))
  {
    NewBlockApart(s, block);
    assert ToSet(s.pages + [block]) == ToSet(s.pages) + {block};
  }

  lemma DistinctAppend<T>(a: seq<T>, b: seq<T>)
    ensures ToSet(a + b) == ToSet(a) + ToSet(b)
    ensures Distinct(a) && Distinct(b) && Apart(b, a) ==> Distinct(a + b)
  {
    assert ToSet(a + b) == ToSet(a) + ToSet(b);
    if Distinct(a) && Distinct(b) && Apart(b, a) {
      forall i, j | 0 <= i < j < |a + b| ensures (a + b)[i] != (a + b)[j] {
        if i < |a| <= j {
          assert (a + b)[i] in a && (a + b)[j] in b;
        }
      }
    }
  }

  lemma RecycleKeepsBlocks(s: Snapshot)
    requires BlocksOk(s)
    ensures BlocksOk(Recycled(s)) && BlocksOk(Emptied(s))
  {
    DistinctAppend(s.freed, s.large);
    DistinctAppend(s.freed + s.large, s.pages);
  }

  lemma AnswerKeepsAnswers(s: Snapshot, amount: nat, r: Option<Region>)
    requires AnswersOk(s)
    requires At(s.pages, PlaceOf(s.pagesize, AfterAll(s.pagesize, s.served), amount), amount, r)
    ensures AnswersOk(Answer(s, amount, r))
  {
    hide AfterAll, PlaceOf;
    var t := Answer(s, amount, r);
    assert t.served[..|s.served|] == s.served;
    forall i | 0 <= i < |t.served|
      ensures At(t.pages, PlaceIn(t.pagesize, t.served, i), t.served[i], t.answers[i])
    {
      if i < |s.served| {
        assert t.served[..i] == s.served[..i];
      }
    }
  }

  lemma LiveOnPage(s: Snapshot, q: Region, i: nat)
    requires BlocksOk(s) && Placed(s, q) && i < |s.pages| && q.block == s.pages[i]
    ensures i < s.next && (i == s.next - 1 ==> q.offset + q.length <= s.used)
  {
    assert s.pages[i] in s.pages;
  }

  /** A region disjoint from all live memory may be handed out. */
  lemma AnswerKeepsLive(s: Snapshot, amount: nat, r: Region)
    requires LiveOk(s) && Placed(s, r) && forall i :: 0 <= i < |s.live| ==> Disjoint(s.live[i], r)
    ensures LiveOk(Answer(s, amount, Some(r)))
  {
    var t := Answer(s, amount, Some(r));
    forall i | 0 <= i < |t.live| ensures Placed(t, t.live[i]) {
      assert Placed(s, t.live[i]);
      assert OnPage(s, t.live[i]) == OnPage(t, t.live[i]);
    }
  }

  /** What has been handed out stays where it is while blocks are added and the mark moves on. */
  lemma LiveStays(s: Snapshot, t: Snapshot)
    requires LiveOk(s) && t.live == s.live && s.pages <= t.pages && s.large <= t.large
    requires s.next <= |s.pages| && t.next <= |t.pages|
    requires if t.next == s.next then s.used <= t.used else s.next < t.next
    ensures LiveOk(t)
  {
    forall k | 0 <= k < |s.live| ensures Placed(t, s.live[k]) {
      var r := s.live[k];
      assert Placed(s, r);
      if r.block !in s.large {
        var i :| 0 <= i < s.next && s.pages[i] == r.block && (i == s.next - 1 ==> r.offset + r.length <= s.used);
        assert t.pages[i] == r.block && i < t.next && (i == t.next - 1 ==> i == s.next - 1);
      }
    }
  }

  lemma LargeKeeps(s: Snapshot, amount: nat, block: Block)
    requires Ok(s) && block !in s.obtained && s.pagesize < RoundUp(amount) == block.Length && 0 < amount
    ensures Ok(TakeLarge(s, amount, block))
  {
    hide BlocksOk, LiveOk, AnswersOk, OnPage, PlaceIn, AfterAll, RoundUp;
    var t := s.(large := s.large + [block], obtained := s.obtained + {block});
    var r := Region(block, 0, RoundUp(amount));
    LargeKeepsBlocks(s, amount, block);
    AfterOneMore(s.pagesize, s.served, amount);
    LiveStays(s, t);
    AnswersOnSamePages(s, t);
    AnswerKeepsAnswers(t, amount, Some(r));
    NewBlockUnused(s, block);
    AnswerKeepsLive(t, amount, r);
  }

  lemma NewBlockUnused(s: Snapshot, block: Block)
    requires BlocksOk(s) && LiveOk(s) && block !in s.obtained
    ensures forall i :: 0 <= i < |s.live| ==> s.live[i].block != block
  {
    NewBlockApart(s, block);
    forall i | 0 <= i < |s.live| ensures s.live[i].block != block {
      assert Placed(s, s.live[i]);
    }
  }

  lemma AnswersOnSamePages(s: Snapshot, t: Snapshot)
    requires AnswersOk(s) && t.served == s.served && t.answers == s.answers && t.pagesize == s.pagesize
    requires s.pages <= t.pages
    ensures AnswersOk(t)
  {
  }

  lemma HereKeeps(s: Snapshot, amount: nat)
    requires Ok(s) && 0 < amount && 0 < s.next && s.used + RoundUp(amount) <= s.pagesize
    ensures Ok(TakeHere(s, amount))
  {
    hide BlocksOk, LiveOk, AnswersOk, OnPage, PlaceIn, AfterAll, RoundUp;
    var t := s.(used := s.used + RoundUp(amount));
    var r := Region(s.pages[s.next - 1], s.used, RoundUp(amount));
    AfterOneMore(s.pagesize, s.served, amount);
    SameBlocks(s, TakeHere(s, amount));
    LiveStays(s, t);
    HereIsFree(s, amount);
    AnswersOnSamePages(s, t);
    AnswerKeepsAnswers(t, amount, Some(r));
    AnswerKeepsLive(t, amount, r);
  }

  lemma SameBlocks(s: Snapshot, t: Snapshot)
    requires BlocksOk(s) && t.pagesize == s.pagesize && t.pages == s.pages && t.large == s.large
    requires t.freed == s.freed && t.obtained == s.obtained
    ensures BlocksOk(t)
  {
  }

  lemma HereIsFree(s: Snapshot, amount: nat)
    requires Ok(s) && 0 < amount && 0 < s.next && s.used + RoundUp(amount) <= s.pagesize
    ensures var r := Region(s.pages[s.next - 1], s.used, RoundUp(amount));
            && Placed(s.(used := s.used + RoundUp(amount)), r)
            && forall i :: 0 <= i < |s.live| ==> Disjoint(s.live[i], r)
  {
    var t, r := s.(used := s.used + RoundUp(amount)), Region(s.pages[s.next - 1], s.used, RoundUp(amount));
    assert t.pages[s.next - 1] == r.block && OnPage(t, r);
    forall i | 0 <= i < |s.live| ensures Disjoint(s.live[i], r) {
      if s.live[i].block == r.block {
        LiveOnPage(s, s.live[i], s.next - 1);
      }
    }
  }

  lemma PageKeeps(s: Snapshot, block: Block)
    requires Ok(s) && block !in s.obtained && block.Length == s.pagesize
    ensures Ok(AddPage(s, block))
  {
    hide BlocksOk, LiveOk, AnswersOk;
    PageKeepsBlocks(s, block);
    LiveStays(s, AddPage(s, block));
    AnswersOnSamePages(s, AddPage(s, block));
  }

  lemma NextKeeps(s: Snapshot, amount: nat)
    requires Ok(s) && 0 < amount && RoundUp(amount) <= s.pagesize && s.next < |s.pages|
    requires s.next == 0 || s.pagesize < s.used + RoundUp(amount)
    ensures Ok(TakeNext(s, amount))
  {
    hide BlocksOk, LiveOk, AnswersOk, OnPage, PlaceIn, AfterAll;
    var t := s.(next := s.next + 1, used := RoundUp(amount));
    var r := Region(s.pages[s.next], 0, RoundUp(amount));
    AfterOneMore(s.pagesize, s.served, amount);
    SameBlocks(s, TakeNext(s, amount));
    LiveStays(s, t);
    NextIsFree(s, amount);
    AnswersOnSamePages(s, t);
    AnswerKeepsAnswers(t, amount, Some(r));
    AnswerKeepsLive(t, amount, r);
  }

  lemma NextIsFree(s: Snapshot, amount: nat)
    requires Ok(s) && 0 < amount && RoundUp(amount) <= s.pagesize && s.next < |s.pages|
    ensures var r := Region(s.pages[s.next], 0, RoundUp(amount));
            && Placed(s.(next := s.next + 1, used := RoundUp(amount)), r)
            && forall i :: 0 <= i < |s.live| ==> Disjoint(s.live[i], r)
  {
    var t := s.(next := s.next + 1, used := RoundUp(amount));
    var r := Region(s.pages[s.next], 0, RoundUp(amount));
    assert t.pages[s.next] == r.block && OnPage(t, r);
    forall i | 0 <= i < |s.live| ensures Disjoint(s.live[i], r) {
      if s.live[i].block == r.block {
        LiveOnPage(s, s.live[i], s.next);
      }
    }
  }

  lemma NothingKeeps(s: Snapshot)
    requires Ok(s)
    ensures Ok(Answer(s, 0, None))
  {
    hide BlocksOk, AfterAll, PlaceIn, LiveOk, AnswersOk;
    var t := Answer(s, 0, None);
    AfterOneMore(s.pagesize, s.served, 0);
    SameBlocks(s, t);
    LiveStays(s, t);
    AnswerKeepsAnswers(s, 0, None);
  }

  lemma RecycleKeeps(s: Snapshot)
    requires Ok(s)
    ensures Ok(Recycled(s)) && Ok(Emptied(s))
    ensures Distinct(s.large) && ToSet(s.large) <= s.obtained && Apart(s.large, s.freed)
    ensures Distinct(s.pages) && ToSet(s.pages) <= s.obtained && Apart(s.pages, s.freed + s.large)
    ensures ToSet(Emptied(s).freed) == s.obtained && Distinct(Emptied(s).freed)
  {
    RecycleKeepsBlocks(s);
    assert BlocksOk(Emptied(s)) && Emptied(s).pages == [] && Emptied(s).large == [];
  }

  /** Live memory lies inside a block the pool has obtained. */
  lemma LiveIsObtained(s: Snapshot, r: Region)
    requires Ok(s) && r in s.live
    ensures r.block in s.obtained && r.block !in s.freed
    ensures 0 < r.length && r.offset % 8 == 0 && r.offset + r.length <= r.block.Length
  {
    assert Placed(s, r);
  }

  /** One request: it goes where PlaceOf says, is appended to the live regions, overlaps nothing that
      is live, and a page is obtained only when all recorded ones are in use. */
  ghost predicate Serves(s: Snapshot, t: Snapshot, amount: nat, r: Option<Region>) {
    && t.pagesize == s.pagesize && t.freed == s.freed && s.obtained <= t.obtained
    && t.served == s.served + [amount] && t.answers == s.answers + [r]
    && s.pages <= t.pages && |t.pages| == (if |s.pages| < t.next then t.next else |s.pages|)
    && match r
       case None => amount == 0 && t == Answer(s, 0, None)
       case Some(q) =>
         && 0 < amount && t.live == s.live + [q] && q.length == RoundUp(amount)
         && t.obtained == s.obtained + {q.block}
         && (forall i :: 0 <= i < |s.live| ==> Disjoint(s.live[i], q))
         && t.large == (if s.pagesize < RoundUp(amount) then s.large + [q.block] else s.large)
         && IsPlacedFor(s, t, RoundUp(amount), q)
  }

  /** Too large for a page: a block of its own.  If there is room behind the mark of the page in use:
      there.  Otherwise: at the start of the next page. */
  ghost predicate IsPlacedFor(s: Snapshot, t: Snapshot, size: nat, q: Region) {
    if s.pagesize < size then
      q.offset == 0 && q.block.Length == size && t.next == s.next && t.used == s.used && t.pages == s.pages
    else if 0 < s.next <= |s.pages| && s.used + size <= s.pagesize then
      && q.block == s.pages[s.next - 1] && q.offset == s.used
      && t.next == s.next && t.used == s.used + size && t.pages == s.pages
    else
      && s.next < |t.pages| && q.block == t.pages[s.next] && q.offset == 0
      && t.next == s.next + 1 && t.used == size
  }

  /** Requests are answered from the places their list gives them. */
  lemma AnswersArePlaces(s: Snapshot, i: nat)
    requires Ok(s) && i < |s.served|
    ensures At(s.pages, PlaceIn(s.pagesize, s.served, i), s.served[i], s.answers[i])
  {
  }

  /** Two histories of one pool that begin with the same requests agree on all that fit a page. */
  lemma SameRequestsSamePlaces(s: Snapshot, t: Snapshot, i: nat)
    requires Ok(s) && Ok(t) && t.pages == s.pages && t.pagesize == s.pagesize
    requires i < |t.served| && t.served <= s.served && RoundUp(t.served[i]) <= s.pagesize
    ensures t.answers[i] == s.answers[i]
  {
    AnswersArePlaces(s, i);
    AnswersArePlaces(t, i);
    assert t.served[..i] == s.served[..i];
  }

  // ---------- the pool ----------

  /** What the owner of a pool may do with it. */
  datatype Event = Request(amount: nat) | Recycling | Emptying

  class Pool {
    var pagesize: nat
    var pages: seq<Block>
    var largeBlocks: seq<Block>
    var nextPage: nat
    var allocBlock: array?<byte>
    var allocUsed: nat
    ghost var live: seq<Region>
    ghost var served: seq<nat>
    ghost var answers: seq<Option<Region>>
    ghost var obtained: set<Block>
    ghost var freed: seq<Block>

    ghost function Shot(): Snapshot
      reads this
    {
      Snapshot(pagesize, pages, largeBlocks, nextPage, allocUsed, live, served, answers, obtained, freed)
    }

    ghost predicate Valid()
      reads this
    {
      Ok(Shot()) && allocBlock == if nextPage == 0 then null else pages[nextPage - 1]
    }

    /** init_amqp_pool */
    constructor (pagesize: nat)
      ensures Valid() && live == [] && served == [] && answers == [] && pages == [] && obtained == {} && freed == []
      ensures this.pagesize == if pagesize == 0 then 4096 else pagesize
    {
      this.pagesize := if pagesize == 0 then 4096 else pagesize;
      pages, largeBlocks, nextPage, allocBlock, allocUsed := [], [], 0, null, 0;
      live, served, answers, obtained, freed := [], [], [], {}, [];
    }

    /** Gives a block back; nothing may be given back twice. */
    ghost method Free(b: Block)
      requires b in obtained && b !in freed
      modifies this`freed
      ensures freed == old(freed) + [b]
    {
      freed := freed + [b];
    }

    /** empty_blocklist, on either list. */
    method EmptyBlocklist(blocks: seq<Block>)
      requires Distinct(blocks) && ToSet(blocks) <= obtained && Apart(blocks, freed)
      modifies this`freed
      ensures freed == old(freed) + blocks
    {
      var i := 0;
      while i < |blocks|
        invariant i <= |blocks| && freed == old(freed) + blocks[..i]
      {
        assert blocks[i] in ToSet(blocks) && blocks[i] !in blocks[..i];
        Free(blocks[i]);
        i := i + 1;
      }
      assert blocks[..i] == blocks;
    }

    /** recycle_amqp_pool: pages are kept for reuse, large blocks are given back. */
    method Recycle()
      requires Valid()
      modifies this
      ensures Valid() && Shot() == Recycled(old(Shot()))
    {
      hide Ok, Distinct, Apart, ToSet;
      RecycleKeeps(Shot());
      EmptyBlocklist(largeBlocks);
      largeBlocks := [];
      nextPage, allocBlock, allocUsed := 0, null, 0;
      live, served, answers := [], [], [];
    }

    /** empty_amqp_pool: afterwards every block ever obtained has been given back, exactly once. */
    method Empty()
      requires Valid()
      modifies this
      ensures Valid() && Shot() == Emptied(old(Shot()))
      ensures ToSet(freed) == obtained && Distinct(freed)
    {
      hide Ok, Distinct, Apart, ToSet;
      RecycleKeeps(Shot());
      Recycle();
      EmptyBlocklist(pages);
      pages := [];
    }

    /** A request larger than a page. */
    method AllocLarge(amount: nat) returns (r: Region)
      requires Valid() && 0 < amount && pagesize < RoundUp(amount)
      modifies this
      ensures Valid() && Serves(old(Shot()), Shot(), amount, Some(r)) && fresh(obtained - old(obtained))
    {
      hide Ok, RoundUp, Serves;
      var block := new byte[RoundUp(amount)](_ => 0);
      r := Region(block, 0, RoundUp(amount));
      LargeServes(Shot(), amount, block);
      largeBlocks := largeBlocks + [block];
      obtained := obtained + {block};
      live, served, answers := live + [r], served + [amount], answers + [Some(r)];
    }

    /** A request that fits behind the mark of the page in use. */
    method AllocHere(amount: nat) returns (r: Region)
      requires Valid() && 0 < amount && allocBlock != null && allocUsed + RoundUp(amount) <= pagesize
      modifies this
      ensures Valid() && Serves(old(Shot()), Shot(), amount, Some(r)) && obtained == old(obtained)
    {
      hide Ok, RoundUp, Serves;
      HereServes(Shot(), amount);
      r := Region(allocBlock, allocUsed, RoundUp(amount));
      allocUsed := allocUsed + RoundUp(amount);
      live, served, answers := live + [r], served + [amount], answers + [Some(r)];
    }

    /** Makes sure that there is a page behind the ones in use. */
    method ObtainPage()
      requires Valid()
      modifies this`pages, this`obtained
      ensures Valid() && nextPage < |pages| && fresh(obtained - old(obtained))
      ensures old(nextPage < |pages|) ==> Shot() == old(Shot())
      ensures old(nextPage == |pages|) ==>
                old(pages) < pages && Shot() == AddPage(old(Shot()), pages[nextPage])
    {
      hide Ok;
      NextInRange(Shot());
      if |pages| <= nextPage {
        var page := new byte[pagesize](_ => 0);
        PageKeeps(Shot(), page);
        pages := pages + [page];
        obtained := obtained + {page};
      }
    }

    /** A request that starts the next page, which is obtained from the system if none is left. */
    method AllocNext(amount: nat) returns (r: Region)
      requires Valid() && 0 < amount && RoundUp(amount) <= pagesize
      requires allocBlock == null || pagesize < allocUsed + RoundUp(amount)
      modifies this
      ensures Valid() && Serves(old(Shot()), Shot(), amount, Some(r)) && fresh(obtained - old(obtained))
    {
      hide Ok, RoundUp, Serves;
      ghost var s := Shot();
      NextInRange(s);
      ObtainPage();
      NextServes(s, Shot(), amount);
      r := StartNext(amount);
    }

    method StartNext(amount: nat) returns (r: Region)
      requires nextPage < |pages|
      modifies this
      ensures Shot() == TakeNext(old(Shot()), amount) && allocBlock == pages[nextPage - 1]
      ensures r == Region(old(pages[nextPage]), 0, RoundUp(amount))
    {
      allocBlock := pages[nextPage];
      nextPage := nextPage + 1;
      allocUsed := RoundUp(amount);
      r := Region(allocBlock, 0, RoundUp(amount));
      live, served, answers := live + [r], served + [amount], answers + [Some(r)];
    }

    /** amqp_pool_alloc.  What it hands out is disjoint from everything handed out since the last
        recycling. */
    method Alloc(amount: nat) returns (r: Option<Region>)
      requires Valid()
      modifies this
      ensures Valid() && Serves(old(Shot()), Shot(), amount, r) && fresh(obtained - old(obtained))
    {
      hide Ok, RoundUp, Serves;
      if amount == 0 {
        NothingServes(Shot());
        served, answers := served + [0], answers + [None];
        return None;
      }
      var region: Region;
      if pagesize < RoundUp(amount) {
        region := AllocLarge(amount);
      } else if allocBlock != null && allocUsed + RoundUp(amount) <= pagesize {
        region := AllocHere(amount);
      } else {
        region := AllocNext(amount);
      }
      r := Some(region);
    }

    /** amqp_pool_alloc_bytes for a positive amount, as a caller sees it who only cares about overlap. */
    method Take(amount: nat) returns (r: Region)
      requires Valid() && 0 < amount
      modifies this
      ensures Valid() && r in live && r.block in obtained && 0 < r.length
      ensures amount <= r.length && r.offset + r.length <= r.block.Length
      ensures old(obtained) <= obtained && fresh(obtained - old(obtained))
      ensures live == old(live) + [r] && forall i :: 0 <= i < |old(live)| ==> Disjoint(old(live)[i], r)
    {
      hide Ok;
      var region := Alloc(amount);
      r := region.value;
      assert r == live[|live| - 1];
      LiveIsObtained(Shot(), r);
    }

    /** A list of requests, served by a new or recycled pool: pages are obtained only as far as the
        list needs them. */
    method ServeAll(amounts: seq<nat>) returns (rs: seq<Option<Region>>)
      requires Valid() && served == []
      modifies this
      ensures Valid() && served == amounts && answers == rs && |rs| == |amounts|
      ensures pagesize == old(pagesize) && freed == old(freed) && old(pages) <= pages
      ensures var needed := AfterAll(pagesize, amounts).pages;
              |pages| == if |old(pages)| < needed then needed else |old(pages)|
    {
      hide Ok;
      ghost var s := Shot();
      rs := [];
      NoAnswersYet(s);
      while |rs| < |amounts|
        invariant |rs| <= |amounts| && Valid() && served == amounts[..|rs|] && answers == rs
        invariant pagesize == s.pagesize && freed == s.freed && s.pages <= pages
        invariant |pages| == if |s.pages| < nextPage then nextPage else |s.pages|
      {
        ghost var t := Shot();
        var r := Alloc(amounts[|rs|]);
        CursorAdvances(t, Shot());
        assert amounts[..|rs| + 1] == amounts[..|rs|] + [amounts[|rs|]];
        rs := rs + [r];
      }
      CursorIsAfterAll(Shot());
      assert amounts[..|rs|] == amounts;
    }

    /** Page reuse: after a recycling, replaying any sequence of requests served since the previous
        one obtains no page, and every request that fits a page gets the same memory again. */
    method RecycleAndReplay(amounts: seq<nat>) returns (rs: seq<Option<Region>>)
      requires Valid() && amounts <= served
      modifies this
      ensures Valid() && served == amounts && answers == rs && |rs| == |amounts|
      ensures pages == old(pages) && pagesize == old(pagesize)
      ensures freed == old(freed) + old(largeBlocks)
      ensures forall i :: 0 <= i < |amounts| ==> At(pages, PlaceIn(pagesize, old(served), i), amounts[i], rs[i])
      ensures forall i :: 0 <= i < |amounts| && RoundUp(amounts[i]) <= pagesize ==> rs[i] == old(answers)[i]
    {
      hide Ok, At, PlaceIn, AfterAll;
      ghost var s := Shot();
      RecycleKeeps(s);
      CursorIsAfterAll(s);
      AfterAllGrows(pagesize, served, |amounts|);
      assert served[..|amounts|] == amounts;
      Recycle();
      rs := ServeAll(amounts);
      ghost var t := Shot();
      forall i | 0 <= i < |amounts|
        ensures At(pages, PlaceIn(pagesize, s.served, i), amounts[i], rs[i])
        ensures RoundUp(amounts[i]) <= pagesize ==> rs[i] == s.answers[i]
      {
        AnswersArePlaces(t, i);
        SamePlace(pagesize, amounts, s.served, i);
        if RoundUp(amounts[i]) <= pagesize {
          SameRequestsSamePlaces(s, t, i);
        }
      }
    }
  }

  lemma SamePlace(pagesize: nat, amounts: seq<nat>, served: seq<nat>, i: nat)
    requires amounts <= served && i < |amounts|
    ensures PlaceIn(pagesize, amounts, i) == PlaceIn(pagesize, served, i)
  {
    assert amounts[..i] == served[..i];
  }

  lemma LargeServes(s: Snapshot, amount: nat, block: Block)
    requires Ok(s) && block !in s.obtained && s.pagesize < RoundUp(amount) == block.Length && 0 < amount
    ensures var t := TakeLarge(s, amount, block);
            Ok(t) && Serves(s, t, amount, Some(Region(block, 0, RoundUp(amount))))
    ensures s.next <= |s.pages|
  {
    hide LiveOk, AnswersOk, BlocksOk, RoundUp;
    LargeKeeps(s, amount, block);
    NewBlockUnused(s, block);
  }

  lemma HereServes(s: Snapshot, amount: nat)
    requires Ok(s) && 0 < amount && 0 < s.next && s.used + RoundUp(amount) <= s.pagesize
    ensures s.next <= |s.pages|
    ensures Ok(TakeHere(s, amount))
    ensures Serves(s, TakeHere(s, amount), amount, Some(Region(s.pages[s.next - 1], s.used, RoundUp(amount))))
  {
    hide LiveOk, AnswersOk, BlocksOk, RoundUp;
    HereKeeps(s, amount);
    HereIsFree(s, amount);
    PageIsObtained(s, s.next - 1);
  }

  lemma PageIsObtained(s: Snapshot, i: nat)
    requires Ok(s) && i < |s.pages|
    ensures s.obtained + {s.pages[i]} == s.obtained
  {
    assert s.pages[i] in ToSet(s.pages);
  }

  /** `t` is `s`, with a page added if all were in use. */
  lemma NextServes(s: Snapshot, t: Snapshot, amount: nat)
    requires Ok(s) && Ok(t) && 0 < amount && RoundUp(amount) <= s.pagesize && t.next < |t.pages|
    requires if s.next < |s.pages| then t == s else s.pages < t.pages && t == AddPage(s, t.pages[s.next])
    requires s.next == 0 || s.pagesize < s.used + RoundUp(amount)
    ensures Ok(TakeNext(t, amount))
    ensures Serves(s, TakeNext(t, amount), amount, Some(Region(t.pages[t.next], 0, RoundUp(amount))))
  {
    hide LiveOk, AnswersOk, BlocksOk, CursorOk, RoundUp;
    NextInRange(s);
    NextKeeps(t, amount);
    NextIsFree(t, amount);
    PageIsObtained(t, t.next);
    if s.next < |s.pages| {
      PageIsObtained(s, s.next);
    }
  }

  lemma NothingServes(s: Snapshot)
    requires Ok(s)
    ensures Ok(Answer(s, 0, None)) && Serves(s, Answer(s, 0, None), 0, None)
  {
    hide LiveOk, AnswersOk, BlocksOk;
    NothingKeeps(s);
  }

  lemma NextInRange(s: Snapshot)
    requires Ok(s)
    ensures s.next <= |s.pages|
  {
  }

  lemma NoAnswersYet(s: Snapshot)
    requires Ok(s) && s.served == []
    ensures s.answers == [] && s.next == 0
  {
  }

  lemma CursorIsAfterAll(s: Snapshot)
    requires Ok(s)
    ensures s.next == AfterAll(s.pagesize, s.served).pages <= |s.pages| && |s.answers| == |s.served|
  {
  }

  lemma CursorAdvances(s: Snapshot, t: Snapshot)
    requires Ok(s) && Ok(t) && t.pagesize == s.pagesize && |s.served| + 1 == |t.served| && s.served < t.served
    ensures s.next <= t.next
  {
    hide BlocksOk, LiveOk, AnswersOk;
    assert t.served == s.served + [t.served[|s.served|]];
    AfterOneMore(s.pagesize, s.served, t.served[|s.served|]);
  }

  /** A whole life of a pool: every request is answered with enough memory of an obtained block, and
      in the end every block ever obtained has been given back, exactly once. */
  method Lifetime(pagesize: nat, events: seq<Event>) returns (pool: Pool, answers: seq<Option<Region>>)
    ensures fresh(pool) && |answers| == |events|
    ensures Distinct(pool.freed) && ToSet(pool.freed) == pool.obtained
    ensures forall i :: 0 <= i < |events| && events[i].Request? && 0 < events[i].amount ==>
              && answers[i].Some? && answers[i].value.block in pool.freed
              && events[i].amount <= answers[i].value.length
              && answers[i].value.offset + answers[i].value.length <= answers[i].value.block.Length
  {
    hide Ok;
    pool := new Pool(pagesize);
    answers := [];
    while |answers| < |events|
      invariant |answers| <= |events| && pool.Valid() && fresh(pool)
      invariant forall i :: 0 <= i < |answers| && events[i].Request? && 0 < events[i].amount ==>
                  && answers[i].Some? && answers[i].value.block in pool.obtained
                  && events[i].amount <= answers[i].value.length
                  && answers[i].value.offset + answers[i].value.length <= answers[i].value.block.Length
    {
      var answer := None;
      match events[|answers|] {
        case Request(amount) =>
          if 0 < amount {
            var r := pool.Take(amount);
            answer := Some(r);
          } else {
            answer := pool.Alloc(0);
          }
        case Recycling => pool.Recycle();
        case Emptying => pool.Empty();
      }
      answers := answers + [answer];
    }
    pool.Empty();
  }
}

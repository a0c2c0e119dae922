/** The connection cache of the cluster client: slots point at nodes, nodes at connections, and a slot
    remembers the connection of its node once it has been used. */
module ClusterCache {
  import opened Options
  import opened KeySlots

  datatype Node = Node(ip: nat, port: nat)

  datatype Range = Range(first: int, last: int)

  /** A line of the cluster layout: a node and the slot ranges it serves. */
  datatype NodeInfo = NodeInfo(node: Node, ranges: seq<Range>)

  /** A connection, as the Redis library hands it out. */
  class Context {
    const node: Node

    constructor (node: Node)
      ensures this.node == node
    {
      this.node := node;
    }
  }

  /** What the client knows about a slot. */
  class SlotInfo {
    const slot: nat
    const node: Node
    var context: Context?

    constructor (slot: nat, node: Node)
      ensures this.slot == slot && this.node == node && context == null
    {
      this.slot, this.node, context := slot, node, null;
    }
  }

  /** What a user of the client may do; `up` says whether a node that has to be connected to for a lookup
      can be reached. */
  datatype Event = Get(slot: nat, up: bool) | Refresh(listing: Option<seq<NodeInfo>>)

  // ---------- the layout ----------

  predicate Covers(ranges: seq<Range>, s: int) {
    exists k :: 0 <= k < |ranges| && ranges[k].first <= s <= ranges[k].last
  }

  predicate InRange(nodes: seq<NodeInfo>) {
    forall i, j :: 0 <= i < |nodes| && 0 <= j < |nodes[i].ranges| ==>
      0 <= nodes[i].ranges[j].first && nodes[i].ranges[j].last < CLUSTER_SLOTS
  }

  predicate ListingOk(listing: Option<seq<NodeInfo>>) {
    listing.Some? ==> InRange(listing.value)
  }

  /** The node a layout gives slot `s` to. */
  function Owner(nodes: seq<NodeInfo>, s: int): Option<Node> {
    if nodes == [] then None
    else
      var last := nodes[|nodes| - 1];
      if Covers(last.ranges, s) then Some(last.node) else Owner(nodes[..|nodes| - 1], s)
  }

  /** The owner of a slot is the last listed node with a range over it. */
  lemma {:induction false} OwnerIsLastListed(nodes: seq<NodeInfo>, s: int)
    ensures forall n :: Owner(nodes, s) == Some(n) <==>
              exists i :: 0 <= i < |nodes| && nodes[i].node == n && Covers(nodes[i].ranges, s)
                          && forall j :: i < j < |nodes| ==> !Covers(nodes[j].ranges, s)
    ensures Owner(nodes, s) == None <==> forall i :: 0 <= i < |nodes| ==> !Covers(nodes[i].ranges, s)
  {
    hide Covers;
    if nodes != [] {
      var k := |nodes| - 1;
      var rest := nodes[..k];
      assert forall i :: 0 <= i < k ==> rest[i] == nodes[i];
      if Covers(nodes[k].ranges, s) {
        assert Owner(nodes, s) == Some(nodes[k].node);
      } else {
        OwnerIsLastListed(rest, s);
        assert Owner(nodes, s) == Owner(rest, s);
      }
    }
  }

  /** The bounds of range `k` of node `i` enclose the slot. */
  ghost predicate Encloses(nodes: seq<NodeInfo>, i: nat, k: nat, s: int)
    requires i < |nodes| && k < |nodes[i].ranges|
  {
    nodes[i].ranges[k].first <= s && s <= nodes[i].ranges[k].last
  }

  /** The same by the bounds of the ranges, both of which belong to a range. */
  lemma OwnerByBounds(nodes: seq<NodeInfo>, s: int, n: Node)
    ensures Owner(nodes, s) == Some(n) <==>
            exists i, k ::
              && 0 <= i < |nodes| && nodes[i].node == n && 0 <= k < |nodes[i].ranges| && Encloses(nodes, i, k, s)
              && forall j, m :: i < j < |nodes| && 0 <= m < |nodes[j].ranges| ==> !Encloses(nodes, j, m, s)
  {
    hide Owner;
    OwnerIsLastListed(nodes, s);
    forall i | 0 <= i < |nodes|
      ensures Covers(nodes[i].ranges, s) <==> exists k :: 0 <= k < |nodes[i].ranges| && Encloses(nodes, i, k, s)
    {
      if Covers(nodes[i].ranges, s) {
        var k :| 0 <= k < |nodes[i].ranges| && nodes[i].ranges[k].first <= s <= nodes[i].ranges[k].last;
        assert Encloses(nodes, i, k, s);
      }
    }
  }

  /** A slot just filled in: its owner, and no connection yet. */
  ghost predicate Filled(info: SlotInfo?, s: nat, owner: Option<Node>)
    reads info
  {
    if info == null then owner == None else info.slot == s && owner == Some(info.node) && info.context == null
  }

  function AllRanges(nodes: seq<NodeInfo>): seq<Range> {
    if nodes == [] then [] else AllRanges(nodes[..|nodes| - 1]) + nodes[|nodes| - 1].ranges
  }

  predicate Within(r: Range, s: int) { r.first <= s <= r.last }

  /** Some slot lies in two ranges. */
  ghost predicate CoveredTwice(ranges: seq<Range>) {
    exists j, k, s :: 0 <= j < k < |ranges| && Within(ranges[j], s) && Within(ranges[k], s)
  }

  lemma CoveredTwiceNext(ranges: seq<Range>, r: Range)
    ensures CoveredTwice(ranges + [r]) <==> CoveredTwice(ranges) || exists s :: Within(r, s) && Covers(ranges, s)
  {
    var all := ranges + [r];
    assert forall k :: 0 <= k < |ranges| ==> all[k] == ranges[k];
    if j, k, s :| 0 <= j < k < |all| && Within(all[j], s) && Within(all[k], s) {
      assert k < |ranges| || (Within(r, s) && Covers(ranges, s));
    }
    if s :| Within(r, s) && Covers(ranges, s) {
      var j :| 0 <= j < |ranges| && ranges[j].first <= s <= ranges[j].last;
      assert Within(all[j], s) && Within(all[|ranges|], s);
    }
  }

  lemma {:induction false} OwnedIsCovered(nodes: seq<NodeInfo>, s: int)
    ensures Owner(nodes, s).Some? <==> Covers(AllRanges(nodes), s)
    decreases |nodes|
  {
    if nodes != [] {
      var rest, last := nodes[..|nodes| - 1], nodes[|nodes| - 1];
      OwnedIsCovered(rest, s);
      CoversAppend(AllRanges(rest), last.ranges, s);
    }
  }

  lemma CoversAppend(a: seq<Range>, b: seq<Range>, s: int)
    ensures Covers(a + b, s) <==> Covers(a, s) || Covers(b, s)
  {
    assert forall k :: 0 <= k < |a| ==> (a + b)[k] == a[k];
    assert forall k :: 0 <= k < |b| ==> (a + b)[|a| + k] == b[k];
  }

  lemma RangesNext(earlier: seq<NodeInfo>, node: Node, ranges: seq<Range>, range: Range)
    ensures AllRanges(earlier + [NodeInfo(node, ranges + [range])])
            == AllRanges(earlier + [NodeInfo(node, ranges)]) + [range]
    ensures AllRanges(earlier + [NodeInfo(node, [])]) == AllRanges(earlier)
  {
    AllRangesNext(earlier, NodeInfo(node, []));
    AllRangesNext(earlier, NodeInfo(node, ranges));
    AllRangesNext(earlier, NodeInfo(node, ranges + [range]));
    assert AllRanges(earlier) + (ranges + [range]) == (AllRanges(earlier) + ranges) + [range];
  }

  lemma AllRangesNext(earlier: seq<NodeInfo>, info: NodeInfo)
    ensures AllRanges(earlier + [info]) == AllRanges(earlier) + info.ranges
  {
    assert (earlier + [info])[..|earlier|] == earlier;
  }

  lemma OwnerLast(earlier: seq<NodeInfo>, info: NodeInfo, s: int)
    ensures Owner(earlier + [info], s) == if Covers(info.ranges, s) then Some(info.node) else Owner(earlier, s)
  {
    assert (earlier + [info])[..|earlier|] == earlier;
  }

  lemma OwnerNext(earlier: seq<NodeInfo>, node: Node, ranges: seq<Range>, range: Range, s: int)
    ensures Owner(earlier + [NodeInfo(node, ranges + [range])], s) ==
            if Within(range, s) then Some(node) else Owner(earlier + [NodeInfo(node, ranges)], s)
    ensures Owner(earlier + [NodeInfo(node, [])], s) == Owner(earlier, s)
  {
    OwnerLast(earlier, NodeInfo(node, []), s);
    OwnerLast(earlier, NodeInfo(node, ranges), s);
    OwnerLast(earlier, NodeInfo(node, ranges + [range]), s);
    CoversAppend(ranges, [range], s);
    assert Covers([range], s) <==> Within(range, s) by {
      assert [range][0] == range;
    }
  }

  lemma FilledMeansOwned(info: SlotInfo?, s: nat, owner: Option<Node>)
    requires Filled(info, s, owner)
    ensures info != null <==> owner.Some?
  {
  }

  lemma WithinSlots(range: Range)
    requires 0 <= range.first && range.last < CLUSTER_SLOTS
    ensures forall s :: Within(range, s) ==> 0 <= s < CLUSTER_SLOTS
  {
  }

  // ---------- what is given back ----------

  function ToSet<T>(s: seq<T>): set<T> { set x | x in s }

  ghost predicate NoneTwice<T>(s: seq<T>) {
    forall i, j :: 0 <= i < j < |s| ==> s[i] != s[j]
  }

  lemma InToSet<T>(s: seq<T>, x: T)
    ensures x in ToSet(s) <==> x in s
  {
  }

  lemma OneMore<T>(s: seq<T>, x: T)
    ensures ToSet(s + [x]) == ToSet(s) + {x}
    ensures NoneTwice(s) && x !in s ==> NoneTwice(s + [x])
  {
    assert ToSet(s + [x]) == ToSet(s) + {x};
  }

  /** The connections to the nodes `ns`. */
  ghost function Held(contexts: map<Node, Context>, ns: set<Node>): set<Context> {
    set n | n in ns && n in contexts :: contexts[n]
  }

  /** The connections to all nodes but `rest`. */
  ghost function HeldOutside(contexts: map<Node, Context>, rest: set<Node>): set<Context> {
    Held(contexts, contexts.Keys - rest)
  }

  lemma HeldAll(contexts: map<Node, Context>)
    ensures HeldOutside(contexts, contexts.Keys) == {} && HeldOutside(contexts, {}) == Held(contexts, contexts.Keys)
  {
    assert contexts.Keys - contexts.Keys == {} && contexts.Keys - {} == contexts.Keys;
  }

  lemma HeldNext(contexts: map<Node, Context>, rest: set<Node>, n: Node)
    requires n in rest && n in contexts && forall m :: m in contexts ==> contexts[m].node == m
    ensures contexts[n] !in HeldOutside(contexts, rest) && contexts[n] in Held(contexts, contexts.Keys)
    ensures HeldOutside(contexts, rest - {n}) == HeldOutside(contexts, rest) + {contexts[n]}
  {
  }

  ghost function RecordsOf(slots: seq<SlotInfo?>): set<SlotInfo> {
    set s | 0 <= s < |slots| && slots[s] != null :: slots[s]
  }

  lemma RecordsUpdated(slots: seq<SlotInfo?>, i: nat, info: SlotInfo?)
    requires i < |slots| && forall s :: 0 <= s < |slots| && slots[s] != null ==> slots[s].slot == s
    ensures var others := RecordsOf(slots) - {slots[i]};
            && RecordsOf(slots[i := info]) == (if info == null then others else others + {info})
            && (slots[i] != null ==> slots[i] in RecordsOf(slots))
  {
    var t, others := slots[i := info], RecordsOf(slots) - {slots[i]};
    forall x | x in others ensures x in RecordsOf(t) {
      var s :| 0 <= s < |slots| && slots[s] != null && slots[s] == x;
      assert t[s] == x;
    }
    assert info != null ==> t[i] == info;
    forall x | x in RecordsOf(t) && x != info ensures x in others {
      var s :| 0 <= s < |t| && t[s] != null && t[s] == x;
      assert slots[s] == x && x.slot == s;
    }
  }

  // ---------- the client ----------

  class Client {
    const nodes: seq<Node>
    const clusterMode: bool
    const slots: array<SlotInfo?>
    var single: Context?
    var contexts: map<Node, Context>

    /** Every connection the library handed out, and those given back to it; every record made for a
        slot, and those deleted. */
    ghost var acquired: set<Context>
    ghost var freed: seq<Context>
    ghost var made: set<SlotInfo>
    ghost var deleted: seq<SlotInfo>

    ghost function Records(): set<SlotInfo>
      reads slots
    {
      RecordsOf(slots[..])
    }

    /** Records that are neither in use nor deleted: nothing points at them any more. */
    ghost function Leaked(): set<SlotInfo>
      reads `made, `deleted, slots
    {
      made - ToSet(deleted) - Records()
    }

    ghost predicate ContextsOk()
      reads `contexts, `single
    {
      && (forall n :: n in contexts ==> contexts[n].node == n)
      && (clusterMode ==> single == null)
      && (!clusterMode ==> contexts == map[] && |nodes| == 1 && (single != null ==> single.node == nodes[0]))
    }

    /** Every slot has a record of its own, made and not deleted. */
    ghost predicate RecordsOk()
      reads this, slots
    {
      && slots.Length == CLUSTER_SLOTS && NoneTwice(deleted) && ToSet(deleted) <= made
      && forall s :: 0 <= s < CLUSTER_SLOTS && slots[s] != null ==>
           slots[s].slot == s && slots[s] in made && slots[s] !in deleted
    }

    /** A slot that remembers a connection remembers the one of its node. */
    ghost predicate SlotsOk()
      reads this, slots, Records()
      requires slots.Length == CLUSTER_SLOTS
    {
      && (!clusterMode ==> forall s :: 0 <= s < CLUSTER_SLOTS ==> slots[s] == null)
      && forall s :: 0 <= s < CLUSTER_SLOTS && slots[s] != null && slots[s].context != null ==>
           slots[s].node in contexts && contexts[slots[s].node] == slots[s].context
    }

    ghost function Live(): set<Context>
      reads `contexts, `single
    {
      Held(contexts, contexts.Keys) + if single == null then {} else {single}
    }

    ghost predicate Accounted()
      reads `contexts, `single, `acquired, `freed
    {
      acquired == ToSet(freed) + Live() && ToSet(freed) !! Live() && NoneTwice(freed)
    }

    ghost predicate Valid()
      reads this, slots, Records()
    {
      && |nodes| > 0 && clusterMode == (|nodes| > 1)
      && ContextsOk() && RecordsOk() && SlotsOk() && Accounted()
    }

    /** The simple lookup the cache stands for. */
    ghost function Lookup(slot: nat): Context?
      reads this, slots
      requires slots.Length == CLUSTER_SLOTS
    {
      if !clusterMode then single
      else if slot < CLUSTER_SLOTS && slots[slot] != null && slots[slot].node in contexts then
        contexts[slots[slot].node]
      else null
    }

    ghost predicate NoSlots()
      reads this, slots
    {
      slots.Length == CLUSTER_SLOTS && forall s :: 0 <= s < CLUSTER_SLOTS ==> slots[s] == null
    }

    /** The constructor up to the first look at the layout, which Create takes. */
    constructor (nodes: seq<Node>)
      requires |nodes| > 0
      ensures Valid() && fresh(slots) && this.nodes == nodes && NoSlots() && slots.Length == 16384
      ensures acquired == {} && freed == [] && made == {} && deleted == [] && single == null && contexts == map[]
    {
      this.nodes, clusterMode := nodes, |nodes| > 1;
      slots := new SlotInfo?[CLUSTER_SLOTS](_ => null);
      single, contexts := null, map[];
      acquired, freed, made, deleted := {}, [], {}, [];
    }

    /** redisConnect, which fails exactly when the node cannot be reached. */
    method Connect(node: Node, up: bool) returns (c: Context?)
      modifies `acquired
      ensures c != null <==> up
      ensures c == null ==> acquired == old(acquired)
      ensures c != null ==> fresh(c) && c.node == node && acquired == old(acquired) + {c}
    {
      c := null;
      if up {
        c := new Context(node);
        acquired := acquired + {c};
      }
    }

    /** redisFree, which must not see a connection twice. */
    method Free(c: Context)
      requires c in acquired && c !in freed
      modifies `freed
      ensures freed == old(freed) + [c]
    {
      freed := freed + [c];
    }

    /** delete, which must not see a record twice. */
    method Delete(info: SlotInfo)
      requires info in made && info !in deleted
      modifies `deleted
      ensures deleted == old(deleted) + [info]
    {
      deleted := deleted + [info];
    }

    method ClearContexts()
      requires clusterMode && ContextsOk() && Accounted()
      modifies `contexts, `freed
      ensures contexts == map[] && NoneTwice(freed) && ToSet(freed) == acquired
    {
      hide Held, HeldOutside, ToSet, NoneTwice;
      ghost var before := ToSet(freed);
      var rest := contexts.Keys;
      HeldAll(contexts);
      while rest != {}
        invariant rest <= contexts.Keys && contexts == old(contexts)
        invariant ToSet(freed) == before + HeldOutside(contexts, rest) && NoneTwice(freed)
        decreases |rest|
      {
        var n :| n in rest;
        HeldNext(contexts, rest, n);
        OneMore(freed, contexts[n]);
        InToSet(freed, contexts[n]);
        Free(contexts[n]);
        rest := rest - {n};
      }
      contexts := map[];
    }

    /** Every record in use is deleted, so that what is leaked stays the same. */
    method ClearSlots()
      requires RecordsOk()
      modifies slots, `deleted
      ensures RecordsOk() && NoSlots() && Leaked() == old(Leaked())
    {
      hide NoneTwice, ToSet;
      ghost var leaked := Leaked();
      for i := 0 to CLUSTER_SLOTS
        invariant RecordsOk() && Leaked() == leaked
        invariant forall s :: 0 <= s < i ==> slots[s] == null
      {
        var info := slots[i];
        if info != null {
          ghost var was := slots[..];
          RecordsUpdated(was, i, null);
          OneMore<SlotInfo>(deleted, info);
          Delete(info);
          slots[i] := null;
          assert slots[..] == was[i := null];
          assert forall s :: 0 <= s < CLUSTER_SLOTS && slots[s] != null ==> slots[s] != info && slots[s] == was[s];
        }
      }
    }

    method Clear()
      requires Valid()
      modifies this, slots
      ensures Valid() && contexts == map[] && single == null && NoSlots()
      ensures ToSet(freed) == acquired == old(acquired)
      ensures made == old(made) && Leaked() == old(Leaked())
    {
      if clusterMode {
        ClearContexts();
        ClearSlots();
      } else if single != null {
        OneMore<Context>(freed, single);
        Free(single);
        single := null;
      }
    }

    /** One slot gets a new record.  The one it may have had before is leaked. */
    method FillSlot(slot: nat, node: Node)
      requires RecordsOk() && slot < CLUSTER_SLOTS
      modifies slots, `made
      ensures RecordsOk() && fresh(slots[slot]) && Filled(slots[slot], slot, Some(node))
      ensures forall s :: 0 <= s < CLUSTER_SLOTS && s != slot ==> slots[s] == old(slots[s])
      ensures Leaked() == old(Leaked()) + if old(slots[slot]) == null then {} else {old(slots[slot])}
      ensures old(slots[slot]) !in old(Leaked())
    {
      hide NoneTwice;
      ghost var was := slots[..];
      var info := new SlotInfo(slot, node);
      RecordsUpdated(was, slot, info);
      made := made + {info};
      slots[slot] := info;
      assert slots[..] == was[slot := info];
    }

    /** The innermost loop of init: a node takes the slots of one range. */
    method FillRange(range: Range, node: Node)
      requires RecordsOk() && 0 <= range.first && range.last < CLUSTER_SLOTS
      modifies slots, `made
      ensures RecordsOk() && old(Leaked()) <= Leaked()
      ensures forall s :: 0 <= s < CLUSTER_SLOTS ==>
                if Within(range, s) then fresh(slots[s]) && Filled(slots[s], s, Some(node))
                else slots[s] == old(slots[s])
      ensures Leaked() == old(Leaked()) <==>
                forall s :: 0 <= s < CLUSTER_SLOTS && Within(range, s) ==> old(slots[s]) == null
    {
      hide RecordsOk, Leaked;
      LengthIs();
      var slot := range.first;
      while slot <= range.last
        invariant range.first <= slot && (slot == range.first || slot <= range.last + 1)
        invariant RecordsOk() && old(Leaked()) <= Leaked()
        invariant forall s :: 0 <= s < CLUSTER_SLOTS ==>
                    if range.first <= s < slot then fresh(slots[s]) && Filled(slots[s], s, Some(node))
                    else slots[s] == old(slots[s])
        invariant Leaked() == old(Leaked()) <==> forall s :: range.first <= s < slot ==> old(slots[s]) == null
      {
        FillSlot(slot, node);
        slot := slot + 1;
      }
    }

    lemma LengthIs()
      requires RecordsOk()
      ensures slots.Length == CLUSTER_SLOTS
    {
    }

    /** The slots follow the listing, and apart from what was `leaked` before it nothing has been leaked
        exactly when the listing covers no slot twice. */
    ghost predicate Follows(listing: seq<NodeInfo>, leaked: set<SlotInfo>)
      reads this, slots, Records()
      requires slots.Length == CLUSTER_SLOTS
    {
      && (forall s :: 0 <= s < CLUSTER_SLOTS ==> Filled(SlotAt(s), s, Owner(listing, s)))
      && leaked <= Leaked() && (Leaked() == leaked <==> !CoveredTwice(AllRanges(listing)))
    }

    ghost function SlotAt(s: nat): (info: SlotInfo?)
      reads this, slots
      requires slots.Length == CLUSTER_SLOTS && s < CLUSTER_SLOTS
      ensures info != null ==> info in Records()
    {
      assert slots[..][s] == slots[s];
      slots[s]
    }

    /** One more range of the last listed node. */
    method FollowRange(range: Range, node: Node, ghost earlier: seq<NodeInfo>, ghost ranges: seq<Range>,
                       ghost leaked: set<SlotInfo>)
      requires RecordsOk() && 0 <= range.first && range.last < CLUSTER_SLOTS
      requires Follows(earlier + [NodeInfo(node, ranges)], leaked)
      modifies slots, `made
      ensures RecordsOk() && Follows(earlier + [NodeInfo(node, ranges + [range])], leaked)
      ensures forall s :: 0 <= s < CLUSTER_SLOTS ==> slots[s] == old(slots[s]) || fresh(slots[s])
    {
      hide RecordsOk, Leaked, Owner, AllRanges, CoveredTwice, Covers, Within, Filled;
      LengthIs();
      ghost var listing, next := earlier + [NodeInfo(node, ranges)], earlier + [NodeInfo(node, ranges + [range])];
      ghost var lost := Leaked();
      RangesNext(earlier, node, ranges, range);
      CoveredTwiceNext(AllRanges(listing), range);
      forall s: nat | s < CLUSTER_SLOTS
        ensures SlotAt(s) == null <==> !Covers(AllRanges(listing), s)
        ensures Owner(next, s) == if Within(range, s) then Some(node) else Owner(listing, s)
      {
        OwnedIsCovered(listing, s);
        FilledMeansOwned(SlotAt(s), s, Owner(listing, s));
        OwnerNext(earlier, node, ranges, range, s);
      }
      assert (forall s :: 0 <= s < CLUSTER_SLOTS && Within(range, s) ==> slots[s] == null)
        <==> !exists s :: Within(range, s) && Covers(AllRanges(listing), s) by {
        WithinSlots(range);
      }
      FillRange(range, node);
      assert forall s :: 0 <= s < CLUSTER_SLOTS ==> SlotAt(s) == slots[s];
    }

    lemma FollowsSame(earlier: seq<NodeInfo>, node: Node, leaked: set<SlotInfo>)
      requires slots.Length == CLUSTER_SLOTS
      ensures Follows(earlier, leaked) <==> Follows(earlier + [NodeInfo(node, [])], leaked)
    {
      hide Leaked, Owner, AllRanges, CoveredTwice, Filled, Covers;
      RangesNext(earlier, node, [], Range(0, 0));
      forall s: nat ensures Owner(earlier + [NodeInfo(node, [])], s) == Owner(earlier, s) {
        OwnerNext(earlier, node, [], Range(0, 0), s);
      }
    }

    /** The two inner loops of init: a listed node takes the slots of its ranges. */
    method FillNode(info: NodeInfo, ghost earlier: seq<NodeInfo>, ghost leaked: set<SlotInfo>)
      requires RecordsOk() && InRange([info]) && Follows(earlier, leaked)
      modifies slots, `made
      ensures RecordsOk() && Follows(earlier + [info], leaked)
      ensures forall s :: 0 <= s < CLUSTER_SLOTS ==> slots[s] == old(slots[s]) || fresh(slots[s])
    {
      hide RecordsOk, Follows;
      LengthIs();
      assert [info][0] == info;
      FollowsSame(earlier, info.node, leaked);
      for j := 0 to |info.ranges|
        invariant RecordsOk() && slots.Length == CLUSTER_SLOTS
        invariant Follows(earlier + [NodeInfo(info.node, info.ranges[..j])], leaked)
        invariant forall s :: 0 <= s < CLUSTER_SLOTS ==> slots[s] == old(slots[s]) || fresh(slots[s])
      {
        assert [info][0].ranges[j] == info.ranges[j];
        assert info.ranges[..j + 1] == info.ranges[..j] + [info.ranges[j]];
        FollowRange(info.ranges[j], info.node, earlier, info.ranges[..j], leaked);
      }
      assert info.ranges[..|info.ranges|] == info.ranges && info == NodeInfo(info.node, info.ranges);
    }

    /** What a layout may have been. */
    ghost function Layout(listing: Option<seq<NodeInfo>>): seq<NodeInfo> {
      if clusterMode && listing.Some? then listing.value else []
    }

    /** init: everything is given back, and the slots follow the layout, if it can be had. */
    method Init(listing: Option<seq<NodeInfo>>) returns (thrown: bool)
      requires Valid() && ListingOk(listing)
      modifies this, slots
      ensures Valid() && contexts == map[] && single == null
      ensures ToSet(freed) == acquired == old(acquired)
      ensures thrown == (clusterMode && listing.None?)
      ensures Follows(Layout(listing), old(Leaked())) && fresh(Records())
    {
      ghost var leaked := Leaked();
      Clear();
      NothingFollowed(leaked);
      thrown := clusterMode && listing.None?;
      if clusterMode && listing.Some? {
        FillAll(listing.value, leaked);
      }
    }

    lemma NothingFollowed(leaked: set<SlotInfo>)
      requires NoSlots() && Leaked() == leaked
      ensures Follows([], leaked) && Records() == {}
    {
    }

    /** The outer loop of init. */
    method FillAll(infos: seq<NodeInfo>, ghost leaked: set<SlotInfo>)
      requires Valid() && clusterMode && InRange(infos) && NoSlots() && Follows([], leaked)
      modifies slots, `made
      ensures Valid() && Follows(infos, leaked) && fresh(Records())
    {
      hide RecordsOk, Follows, Accounted, ContextsOk;
      for i := 0 to |infos|
        invariant RecordsOk() && slots.Length == CLUSTER_SLOTS && Follows(infos[..i], leaked)
        invariant forall s :: 0 <= s < CLUSTER_SLOTS ==> slots[s] == null || fresh(slots[s])
      {
        assert infos[..i + 1] == infos[..i] + [infos[i]];
        FillNode(infos[i], infos[..i], leaked);
      }
      assert infos[..|infos|] == infos;
      FollowedIsUnused(infos, leaked);
    }

    lemma FollowedIsUnused(listing: seq<NodeInfo>, leaked: set<SlotInfo>)
      requires slots.Length == CLUSTER_SLOTS && Follows(listing, leaked)
      ensures forall s :: 0 <= s < CLUSTER_SLOTS && slots[s] != null ==> slots[s].context == null
    {
      hide Owner, AllRanges, CoveredTwice, Leaked;
      assert forall s :: 0 <= s < CLUSTER_SLOTS ==> SlotAt(s) == slots[s];
    }

    /** The constructor with its look at the layout; no client comes out when that throws. */
    static method Create(nodes: seq<Node>, listing: Option<seq<NodeInfo>>) returns (client: Client?)
      requires ListingOk(listing)
      ensures client == null <==> nodes == [] || (|nodes| > 1 && listing.None?)
      ensures client != null ==> client.Valid() && client.acquired == {} && client.nodes == nodes
      ensures client != null ==> fresh(client) && fresh(client.slots) && fresh(client.Records())
      ensures client != null ==> client.Follows(client.Layout(listing), {})
    {
      client := null;
      if |nodes| > 0 {
        var made := new Client(nodes);
        NothingLeaked(made);
        made.NothingFollowed({});
        if |nodes| > 1 {
          var thrown := made.Init(listing);
          if thrown {
            return;
          }
        }
        client := made;
      }
    }

    /** What a lookup may change: one node may get a connection. */
    twostate predicate Connected(node: Node, up: bool, new c: Context?)
      reads this
    {
      && freed == old(freed)
      && if node in old(contexts) then
           c == old(contexts)[node] && contexts == old(contexts) && acquired == old(acquired)
         else if !up then c == null && contexts == old(contexts) && acquired == old(acquired)
         else c != null && fresh(c) && contexts == old(contexts)[node := c] && acquired == old(acquired) + {c}
    }

    /** The part of get_redis_context for a slot that does not remember its connection yet. */
    method FindOrConnect(slot: nat, info: SlotInfo, up: bool) returns (c: Context?)
      requires Valid() && clusterMode && slot < CLUSTER_SLOTS && slots[slot] == info && info.context == null
      modifies `contexts, `acquired, info
      ensures Valid() && Connected(info.node, up, c)
    {
      if info.node in contexts {
        c := contexts[info.node];
        info.context := c;
      } else {
        c := Connect(info.node, up);
        if c != null {
          ghost var live := Live();
          info.context := c;
          contexts := contexts[info.node := c];
          assert Live() == live + {c} by {
            assert contexts[info.node] == c;
            assert forall n :: n in old(contexts) ==> n in contexts && contexts[n] == old(contexts)[n];
          }
        }
      }
    }

    /** get_redis_context. */
    method GetRedisContext(slot: nat, up: bool) returns (c: Context?)
      requires Valid()
      modifies `single, `contexts, `acquired, Records()
      ensures Valid() && c == Lookup(slot)
      ensures c != null <==> old(Lookup(slot)) != null || (up && old(NodeFor(slot)).Some?)
      ensures old(Lookup(slot)) != null ==> c == old(Lookup(slot)) && acquired == old(acquired)
      ensures acquired == old(acquired) + if c == old(Lookup(slot)) || c == null then {} else {c}
      ensures forall n :: n in old(contexts) ==> n in contexts && contexts[n] == old(contexts)[n]
      ensures forall n :: n in contexts ==> (n in old(contexts) && contexts[n] == old(contexts)[n]) || contexts[n] == c
      ensures single == if old(single) == null && !clusterMode then c else old(single)
    {
      c := null;
      if !clusterMode {
        if single != null {
          c := single;
        } else {
          c := Connect(nodes[0], up);
          single := c;
        }
      } else if slot < CLUSTER_SLOTS && slots[slot] != null {
        assert slots[..][slot] in Records();
        if slots[slot].context != null {
          c := slots[slot].context;
        } else {
          c := FindOrConnect(slot, slots[slot], up);
        }
      }
    }

    lemma SlotCount()
      requires Valid()
      ensures slots.Length == CLUSTER_SLOTS
    {
    }

    /** The node a lookup of `slot` goes to. */
    ghost function NodeFor(slot: nat): Option<Node>
      reads slots
      requires slots.Length == CLUSTER_SLOTS
    {
      if |nodes| == 1 then Some(nodes[0])
      else if slot < CLUSTER_SLOTS && slots[slot] != null then Some(slots[slot].node)
      else None
    }

    ghost predicate Remembers(c: Context)
      reads `contexts, `single
    {
      if clusterMode then c.node in contexts && contexts[c.node] == c else single == c
    }

    /** get_redis_context as a user sees it: the connection goes to the node of the slot, and it is the
        one the client remembers for that node, if any. */
    method Get(slot: nat, up: bool) returns (c: Context?)
      requires Valid()
      modifies `single, `contexts, `acquired, Records()
      ensures Valid() && old(acquired) <= acquired
      ensures c != null ==> Remembers(c) && c in acquired && NodeFor(slot) == Some(c.node)
      ensures forall d :: d in old(acquired) && old(Remembers(d)) ==>
                Remembers(d) && (NodeFor(slot) == Some(d.node) ==> c == d)
      ensures up && NodeFor(slot).Some? ==> c != null
      ensures !up && c != null ==> c in old(acquired) && old(Remembers(c))
      ensures forall d :: d in acquired && Remembers(d) && d != c ==> d in old(acquired) && old(Remembers(d))
    {
      c := GetRedisContext(slot, up);
    }

    /** No two live connections go to the same node. */
    lemma OneConnectionPerNode(c: Context, d: Context)
      requires Valid() && c in Live() && d in Live() && c.node == d.node
      ensures c == d
    {
    }
  }

  lemma NothingLeaked(client: Client)
    requires client.made == {}
    ensures client.Leaked() == {}
  {
  }

  // ---------- a whole life ----------

  /** The layout in force when event `i` comes. */
  function LayoutAt(listing: Option<seq<NodeInfo>>, events: seq<Event>, i: nat): Option<seq<NodeInfo>>
    requires i <= |events|
  {
    if i == 0 then listing
    else if events[i - 1].Refresh? then events[i - 1].listing
    else LayoutAt(listing, events, i - 1)
  }

  /** The node a lookup of `slot` goes to under a layout. */
  function Target(nodes: seq<Node>, layout: Option<seq<NodeInfo>>, slot: nat): Option<Node> {
    if |nodes| == 1 then Some(nodes[0])
    else if layout.Some? && slot < CLUSTER_SLOTS then Owner(layout.value, slot)
    else None
  }

  /** Where event `i`, if it is a lookup, goes. */
  function TargetAt(nodes: seq<Node>, listing: Option<seq<NodeInfo>>, events: seq<Event>, i: nat): Option<Node>
    requires i < |events|
  {
    if events[i].Get? then Target(nodes, LayoutAt(listing, events, i), events[i].slot) else None
  }

  predicate Undisturbed(events: seq<Event>, i: nat, j: nat)
    requires j <= |events|
  {
    forall k :: i <= k < j ==> !events[k].Refresh?
  }

  /** An earlier lookup got a connection to the node that event `i` looks for, and there was no refresh in
      between. */
  ghost predicate Reached(nodes: seq<Node>, listing: Option<seq<NodeInfo>>, events: seq<Event>, got: seq<Context?>,
                          i: nat)
    requires i <= |got| && i < |events|
  {
    exists j :: 0 <= j < i && got[j] != null && Undisturbed(events, j, i)
                && TargetAt(nodes, listing, events, i) == Some(got[j].node)
  }

  /** Every lookup that got a connection got one to the node the layout gives the slot to, and the
      connection of an earlier lookup of that node if there was no refresh in between.  A lookup gets
      a connection exactly when there is such a node and it can be reached or has been. */
  ghost predicate Answers(nodes: seq<Node>, listing: Option<seq<NodeInfo>>, events: seq<Event>, got: seq<Context?>) {
    && |got| <= |events|
    && (forall i :: 0 <= i < |got| && got[i] != null ==> TargetAt(nodes, listing, events, i) == Some(got[i].node))
    && (forall i, j :: 0 <= i < j < |got| && got[i] != null && Undisturbed(events, i, j) ==>
          (TargetAt(nodes, listing, events, j) == Some(got[i].node) ==> got[j] == got[i]))
    && forall i :: 0 <= i < |got| ==> (got[i] != null <==> ShouldGet(nodes, listing, events, got, i))
  }

  ghost predicate ShouldGet(nodes: seq<Node>, listing: Option<seq<NodeInfo>>, events: seq<Event>, got: seq<Context?>,
                            i: nat)
    requires i <= |got| && i < |events|
  {
    && events[i].Get? && TargetAt(nodes, listing, events, i).Some?
    && (events[i].up || Reached(nodes, listing, events, got, i))
  }

  lemma ShouldGetStays(nodes: seq<Node>, listing: Option<seq<NodeInfo>>, events: seq<Event>, got: seq<Context?>,
                       c: Context?, i: nat)
    requires i <= |got| && i < |events|
    ensures ShouldGet(nodes, listing, events, got + [c], i) <==> ShouldGet(nodes, listing, events, got, i)
  {
    hide TargetAt, Undisturbed;
    assert forall j :: 0 <= j < i ==> (got + [c])[j] == got[j];
  }

  /** Some layout the client has loaded covers a slot twice. */
  ghost predicate LoadedTwice(nodes: seq<Node>, listing: Option<seq<NodeInfo>>, events: seq<Event>, k: nat)
    requires k <= |events|
  {
    && |nodes| > 1
    && (LayoutTwice(listing) || exists i :: 0 <= i < k && events[i].Refresh? && LayoutTwice(events[i].listing))
  }

  ghost predicate LayoutTwice(listing: Option<seq<NodeInfo>>) {
    listing.Some? && CoveredTwice(AllRanges(listing.value))
  }

  /** The connections of the lookups since the last refresh are remembered, and no others. */
  ghost predicate Remembered(client: Client, events: seq<Event>, got: seq<Context?>)
    requires |got| <= |events|
    reads client`contexts, client`single, client`acquired
  {
    && (forall i :: 0 <= i < |got| && got[i] != null && Undisturbed(events, i, |got|) ==> client.Remembers(got[i]))
    && forall d :: d in client.acquired && client.Remembers(d) ==> HandedOut(events, got, d)
  }

  ghost predicate HandedOut(events: seq<Event>, got: seq<Context?>, d: Context)
    requires |got| <= |events|
  {
    exists i :: 0 <= i < |got| && got[i] == d && Undisturbed(events, i, |got|)
  }

  lemma HandedOutNext(events: seq<Event>, got: seq<Context?>, c: Context?, d: Context)
    requires |got| < |events| && events[|got|].Get? && (d == c || HandedOut(events, got, d))
    ensures HandedOut(events, got + [c], d)
  {
    if d == c {
      assert (got + [c])[|got|] == d;
    } else {
      var i :| 0 <= i < |got| && got[i] == d && Undisturbed(events, i, |got|);
      assert (got + [c])[i] == d && Undisturbed(events, i, |got| + 1);
    }
  }

  /** The slots are those of the layout in force. */
  ghost predicate InForce(client: Client, layout: Option<seq<NodeInfo>>)
    reads client, client.slots
    requires client.slots.Length == CLUSTER_SLOTS
  {
    forall slot: nat :: client.NodeFor(slot) == Target(client.nodes, layout, slot)
  }

  lemma NextAnswer(nodes: seq<Node>, listing: Option<seq<NodeInfo>>, events: seq<Event>, got: seq<Context?>,
                   c: Context?)
    requires |got| < |events| && Answers(nodes, listing, events, got)
    requires c != null ==> TargetAt(nodes, listing, events, |got|) == Some(c.node)
    requires forall i :: 0 <= i < |got| && got[i] != null && Undisturbed(events, i, |got|) ==>
               (TargetAt(nodes, listing, events, |got|) == Some(got[i].node) ==> c == got[i])
    requires c != null <==> ShouldGet(nodes, listing, events, got, |got|)
    ensures Answers(nodes, listing, events, got + [c])
  {
    hide TargetAt, Undisturbed, ShouldGet;
    forall i: nat | i <= |got|
      ensures ShouldGet(nodes, listing, events, got + [c], i) <==> ShouldGet(nodes, listing, events, got, i)
    {
      ShouldGetStays(nodes, listing, events, got, c, i);
    }
  }

  /** A lookup in the course of a life. */
  method ServeGet(client: Client, listing: Option<seq<NodeInfo>>, events: seq<Event>, got: seq<Context?>)
    returns (c: Context?)
    requires client.Valid() && |got| < |events| && events[|got|].Get?
    requires forall d :: d in got && d != null ==> d in client.acquired
    requires Answers(client.nodes, listing, events, got) && Remembered(client, events, got)
    requires InForce(client, LayoutAt(listing, events, |got|))
    modifies client`single, client`contexts, client`acquired, client.Records()
    ensures client.Valid() && (c != null ==> c in client.acquired) && old(client.acquired) <= client.acquired
    ensures Answers(client.nodes, listing, events, got + [c]) && Remembered(client, events, got + [c])
    ensures InForce(client, LayoutAt(listing, events, |got| + 1))
  {
    hide Client.Valid, LayoutAt, Target, Answers;
    ghost var k := |got|;
    client.SlotCount();
    assert LayoutAt(listing, events, k + 1) == LayoutAt(listing, events, k) by {
      LayoutStays(listing, events, k);
    }
    assert client.NodeFor(events[k].slot) == TargetAt(client.nodes, listing, events, k);
    ghost var up := events[k].up;
    c := client.Get(events[|got|].slot, events[|got|].up);
    assert c != null && !up ==> HandedOut(events, got, c);
    forall i | 0 <= i < k && got[i] != null && Undisturbed(events, i, k)
      ensures TargetAt(client.nodes, listing, events, k) == Some(got[i].node) ==> c == got[i]
    {
      assert got[i] in got;
    }
    NextAnswer(client.nodes, listing, events, got, c);
    forall d | d in client.acquired && client.Remembers(d)
      ensures HandedOut(events, got + [c], d)
    {
      HandedOutNext(events, got, c, d);
    }
    forall i | 0 <= i < k + 1 && (got + [c])[i] != null && Undisturbed(events, i, k + 1)
      ensures client.Remembers((got + [c])[i])
    {
      if i < k {
        assert got[i] in got && Undisturbed(events, i, k);
      }
    }
  }

  lemma LayoutStays(listing: Option<seq<NodeInfo>>, events: seq<Event>, k: nat)
    requires k < |events|
    ensures LayoutAt(listing, events, k + 1) ==
            if events[k].Refresh? then events[k].listing else LayoutAt(listing, events, k)
  {
  }

  /** A refresh in the course of a life. */
  method ServeRefresh(client: Client, listing: Option<seq<NodeInfo>>, events: seq<Event>, got: seq<Context?>)
    requires client.Valid() && |got| < |events| && events[|got|].Refresh? && ListingOk(events[|got|].listing)
    requires Answers(client.nodes, listing, events, got)
    requires client.Leaked() == {} <==> !LoadedTwice(client.nodes, listing, events, |got|)
    modifies client, client.slots
    ensures client.Valid() && fresh(client.Records()) && client.acquired == old(client.acquired)
    ensures Answers(client.nodes, listing, events, got + [null]) && Remembered(client, events, got + [null])
    ensures InForce(client, LayoutAt(listing, events, |got| + 1))
    ensures client.Leaked() == {} <==> !LoadedTwice(client.nodes, listing, events, |got| + 1)
  {
    hide Client.Valid, LayoutAt, Target, Answers, Client.Leaked, LoadedTwice, Client.Follows;
    ghost var k := |got|;
    client.SlotCount();
    LayoutStays(listing, events, k);
    RefreshAnswers(client.nodes, listing, events, got);
    ghost var leaked := client.Leaked();
    var _ := client.Init(events[|got|].listing);
    client.SlotCount();
    FollowedIsInForce(client, events[k].listing, leaked);
    LoadedNext(client, listing, events, k, leaked);
    assert forall i :: 0 <= i < k + 1 ==> (got + [null])[i] == null || !Undisturbed(events, i, k + 1);
  }

  lemma RefreshAnswers(nodes: seq<Node>, listing: Option<seq<NodeInfo>>, events: seq<Event>, got: seq<Context?>)
    requires |got| < |events| && events[|got|].Refresh? && Answers(nodes, listing, events, got)
    ensures Answers(nodes, listing, events, got + [null])
  {
    hide Target, LayoutAt;
    assert TargetAt(nodes, listing, events, |got|) == None;
    NextAnswer(nodes, listing, events, got, null);
  }

  lemma FollowedIsInForce(client: Client, layout: Option<seq<NodeInfo>>, leaked: set<SlotInfo>)
    requires client.Valid() && client.Follows(client.Layout(layout), leaked)
    ensures InForce(client, layout)
  {
    hide Owner, AllRanges, CoveredTwice, Client.Leaked, Client.Accounted, Client.RecordsOk;
    client.SlotCount();
    OwnerOfNothing();
    forall slot: nat ensures client.NodeFor(slot) == Target(client.nodes, layout, slot) {
      if slot < CLUSTER_SLOTS {
        assert client.SlotAt(slot) == client.slots[slot];
      }
    }
  }

  lemma OwnerOfNothing()
    ensures forall s :: Owner([], s) == None
    ensures AllRanges([]) == [] && !CoveredTwice([])
  {
  }

  lemma LoadedNext(client: Client, listing: Option<seq<NodeInfo>>, events: seq<Event>, k: nat, leaked: set<SlotInfo>)
    requires client.Valid() && k < |events| && events[k].Refresh?
    requires leaked == {} <==> !LoadedTwice(client.nodes, listing, events, k)
    requires client.slots.Length == CLUSTER_SLOTS && client.Follows(client.Layout(events[k].listing), leaked)
    ensures client.Leaked() == {} <==> !LoadedTwice(client.nodes, listing, events, k + 1)
  {
    hide Owner, AllRanges, CoveredTwice, Client.Leaked, Client.Accounted, Client.RecordsOk, Client.SlotsOk;
    OwnerOfNothing();
    assert CoveredTwice(AllRanges(client.Layout(events[k].listing))) <==>
             |client.nodes| > 1 && LayoutTwice(events[k].listing);
  }

  /** A whole life of a client, whatever is asked of it and however the connecting goes.  Every lookup
      is answered from the layout in force; when the client is destroyed, every connection it was given
      has been freed, exactly once; and every record it made has been deleted, exactly once, provided
      that no layout covered a slot twice, and only then. */
  method Lifetime(nodes: seq<Node>, listing: Option<seq<NodeInfo>>, events: seq<Event>)
    returns (client: Client?, got: seq<Context?>)
    requires ListingOk(listing) && forall i :: 0 <= i < |events| && events[i].Refresh? ==> ListingOk(events[i].listing)
    ensures client == null <==> nodes == [] || (|nodes| > 1 && listing.None?)
    ensures client != null ==> |got| == |events| && Answers(nodes, listing, events, got)
    ensures client != null ==> NoneTwice(client.freed) && ToSet(client.freed) == client.acquired
    ensures client != null ==> forall c :: c in got && c != null ==> c in client.freed
    ensures client != null ==> NoneTwice(client.deleted) && ToSet(client.deleted) <= client.made
    ensures client != null ==>
              (ToSet(client.deleted) == client.made <==> !LoadedTwice(nodes, listing, events, |events|))
  {
    hide Client.Valid, LayoutAt, Target, Answers, Client.Leaked, LoadedTwice, Client.Follows, Remembered, InForce;
    got := [];
    client := Client.Create(nodes, listing);
    if client != null {
      client.SlotCount();
      LifeBegins(client, listing, events);
      while |got| < |events|
        invariant client.Valid() && client.nodes == nodes && client.slots.Length == CLUSTER_SLOTS
        invariant fresh(client) && fresh(client.slots) && fresh(client.Records()) && |got| <= |events|
        invariant forall c :: c in got && c != null ==> c in client.acquired
        invariant Answers(nodes, listing, events, got) && Remembered(client, events, got)
        invariant InForce(client, LayoutAt(listing, events, |got|))
        invariant client.Leaked() == {} <==> !LoadedTwice(nodes, listing, events, |got|)
      {
        if events[|got|].Get? {
          LoadedStays(nodes, listing, events, |got|);
          var c := ServeGet(client, listing, events, got);
          got := got + [c];
        } else {
          ServeRefresh(client, listing, events, got);
          got := got + [null];
        }
        client.SlotCount();
      }
      client.Clear();
      LifeEnds(client);
    }
  }

  lemma LifeBegins(client: Client, listing: Option<seq<NodeInfo>>, events: seq<Event>)
    requires client.Valid() && client.slots.Length == CLUSTER_SLOTS && client.Follows(client.Layout(listing), {})
    requires client.acquired == {}
    ensures Answers(client.nodes, listing, events, []) && Remembered(client, events, [])
    ensures InForce(client, LayoutAt(listing, events, 0))
    ensures client.Leaked() == {} <==> !LoadedTwice(client.nodes, listing, events, 0)
  {
    hide Owner, AllRanges, CoveredTwice, Client.Leaked, Client.Accounted, Client.RecordsOk, Client.SlotsOk;
    FollowedIsInForce(client, listing, {});
    OwnerOfNothing();
    assert CoveredTwice(AllRanges(client.Layout(listing))) <==> |client.nodes| > 1 && LayoutTwice(listing);
  }

  lemma LoadedStays(nodes: seq<Node>, listing: Option<seq<NodeInfo>>, events: seq<Event>, k: nat)
    requires k < |events| && events[k].Get?
    ensures LoadedTwice(nodes, listing, events, k + 1) == LoadedTwice(nodes, listing, events, k)
  {
    hide LayoutTwice;
  }

  lemma LifeEnds(client: Client)
    requires client.Valid() && client.NoSlots()
    ensures NoneTwice(client.deleted) && ToSet(client.deleted) <= client.made && NoneTwice(client.freed)
    ensures client.Leaked() == {} <==> ToSet(client.deleted) == client.made
  {
    assert client.Records() == {};
    var d := ToSet(client.deleted);
    if client.made - d == {} {
      forall x | x in client.made ensures x in d {
        assert x !in client.made - d;
      }
    }
  }

  /** The shortest layout that leaks: one node listed with two ranges that share a slot. */
  method LeakOne(node: Node, other: Node) returns (client: Client?)
    ensures client != null && ToSet(client.deleted) < client.made
  {
    var listing := Some([NodeInfo(node, [Range(0, 5), Range(5, 9)])]);
    TwoRangesOverlap(node);
    var got;
    client, got := Lifetime([node, other], listing, []);
  }

  lemma TwoRangesOverlap(node: Node)
    ensures CoveredTwice(AllRanges([NodeInfo(node, [Range(0, 5), Range(5, 9)])]))
  {
    var ranges := [Range(0, 5), Range(5, 9)];
    AllRangesNext([], NodeInfo(node, ranges));
    assert [] + [NodeInfo(node, ranges)] == [NodeInfo(node, ranges)] && AllRanges([]) + ranges == ranges;
    assert Within(ranges[0], 5) && Within(ranges[1], 5);
  }
}

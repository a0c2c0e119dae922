/** amqp_basic_properties_clone: the properties of a message are copied, byte string by byte string,
    out of the memory of a channel into the message's own pool. */
module PropertyClone {
  import opened Options
  import opened Wire
  import opened Pools

  /** amqp_bytes_t */
  datatype Bytes = Empty | In(region: Region, len: nat)

  ghost predicate Readable(b: Bytes) {
    b.In? ==> 0 < b.len <= b.region.length && b.region.offset + b.region.length <= b.region.block.Length
  }

  function BlocksOf(b: Bytes): set<Block> {
    match b
    case Empty => {}
    case In(r, _) => {r.block}
  }

  ghost function ContentOf(b: Bytes): seq<byte>
    requires Readable(b)
    reads BlocksOf(b)
  {
    match b
    case Empty => []
    case In(r, n) => r.block[r.offset..r.offset + n]
  }

  /** The properties: the byte strings in the order of the declaration, present or absent by flag,
      and the scalars, which are copied as they are. */
  datatype Properties = Properties(strings: seq<Option<Bytes>>, scalars: seq<Option<nat>>)

  /** The copy lies in `pool`. */
  ghost predicate Owned(b: Bytes, pool: Pool)
    reads pool
  {
    b.In? ==> b.region in pool.live && b.region.block in pool.obtained
  }

  twostate predicate Unchanged(r: Region)
    reads r.block
  {
    r.offset + r.length <= r.block.Length ==>
      forall k :: r.offset <= k < r.offset + r.length ==> r.block[k] == old(r.block[k])
  }

  /** The CLONE_BYTES_POOL macro.  The copy has the same content; nothing the pool handed out before
      and no other memory changes. */
  method CloneBytes(original: Bytes, pool: Pool) returns (clone: Bytes)
    requires pool.Valid() && Readable(original) && BlocksOf(original) !! pool.obtained
    modifies pool, pool.obtained
    ensures pool.Valid() && old(pool.live) <= pool.live
    ensures old(pool.obtained) <= pool.obtained && fresh(pool.obtained - old(pool.obtained))
    ensures Readable(clone) && Owned(clone, pool)
    ensures ContentOf(clone) == old(ContentOf(original)) == ContentOf(original)
    ensures forall r :: r in old(pool.live) ==> Unchanged(r)
  {
    hide Pool.Valid;
    if original.Empty? {
      return Empty;
    }
    var r := pool.Take(original.len);
    clone := In(r, original.len);
    forall i | 0 <= i < original.len {
      r.block[r.offset + i] := original.region.block[original.region.offset + i];
    }
  }

  /** What one property has become: same flag, same content, and in the pool of the message. */
  ghost predicate Copied(content: Option<seq<byte>>, clone: Option<Bytes>, pool: Pool)
    reads pool, if clone.Some? then BlocksOf(clone.value) else {}
  {
    match clone
    case None => content == None
    case Some(b) => Readable(b) && Owned(b, pool) && content == Some(ContentOf(b))
  }

  ghost function ContentOfField(f: Option<Bytes>): Option<seq<byte>>
    requires f.Some? ==> Readable(f.value)
    reads if f.Some? then BlocksOf(f.value) else {}
  {
    match f
    case None => None
    case Some(b) => Some(ContentOf(b))
  }

  ghost predicate AllCopied(contents: seq<Option<seq<byte>>>, clones: seq<Option<Bytes>>, pool: Pool)
    reads pool, pool.obtained
  {
    && |contents| == |clones|
    && forall i :: 0 <= i < |clones| ==>
         (clones[i].Some? ==> BlocksOf(clones[i].value) <= pool.obtained) && Copied(contents[i], clones[i], pool)
  }

  lemma NoneCopied(pool: Pool)
    ensures AllCopied([], [], pool)
  {
  }

  /** The next byte string, which leaves the earlier copies alone. */
  method CloneField(field: Option<Bytes>, pool: Pool,
                    ghost contents: seq<Option<seq<byte>>>, ghost clones: seq<Option<Bytes>>)
    returns (clone: Option<Bytes>)
    requires pool.Valid() && AllCopied(contents, clones, pool)
    requires field.Some? ==> Readable(field.value) && BlocksOf(field.value) !! pool.obtained
    modifies pool, pool.obtained
    ensures pool.Valid() && old(pool.obtained) <= pool.obtained && fresh(pool.obtained - old(pool.obtained))
    ensures AllCopied(contents + [old(ContentOfField(field))], clones + [clone], pool)
  {
    hide Pool.Valid;
    clone := None;
    if field.Some? {
      var b := CloneBytes(field.value, pool);
      clone := Some(b);
      forall i | 0 <= i < |clones|
        ensures Copied(contents[i], clones[i], pool)
      {
        assert old(Copied(contents[i], clones[i], pool));
        if clones[i].Some? && clones[i].value.In? {
          var r, n := clones[i].value.region, clones[i].value.len;
          assert r in old(pool.live) && Unchanged(r);
          assert r.block[r.offset..r.offset + n] == old(r.block[r.offset..r.offset + n]);
        }
      }
    }
  }

  /** amqp_basic_properties_clone into a new pool: a deep copy that shares no memory with the
      original, which is left as it is. */
  method CloneProperties(original: Properties, pool: Pool)
    returns (clone: Properties, ghost contents: seq<Option<seq<byte>>>)
    requires pool.Valid() && pool.obtained == {}
    requires forall i :: 0 <= i < |original.strings| && original.strings[i].Some? ==>
               Readable(original.strings[i].value)
    modifies pool
    ensures pool.Valid() && fresh(pool.obtained) && clone.scalars == original.scalars
    ensures |contents| == |original.strings|
    ensures forall i :: 0 <= i < |contents| ==>
              contents[i] == old(ContentOfField(original.strings[i])) == ContentOfField(original.strings[i])
    ensures AllCopied(contents, clone.strings, pool)
  {
    hide Pool.Valid, AllCopied;
    NoneCopied(pool);
    clone, contents := Properties([], original.scalars), [];
    var i := 0;
    while i < |original.strings|
      invariant pool.Valid() && fresh(pool.obtained) && clone.scalars == original.scalars
      invariant i == |contents| <= |original.strings|
      invariant forall j :: 0 <= j < i ==> contents[j] == old(ContentOfField(original.strings[j]))
      invariant AllCopied(contents, clone.strings, pool)
    {
      var copy := CloneField(original.strings[i], pool, contents, clone.strings);
      contents := contents + [old(ContentOfField(original.strings[i]))];
      clone := clone.(strings := clone.strings + [copy]);
      i := i + 1;
    }
  }
}

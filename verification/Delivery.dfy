/** Frames on their way to the application: the queue of frames read too early, waiting for a frame
    of one channel, and putting a message back together from its header and body frames. */
module Delivery {
  import opened Options
  import opened Wire
  import opened Frames

  const CHANNEL_CLOSE_METHOD: uint32 := 0x140028
  const CONNECTION_CLOSE_METHOD: uint32 := 0xA0032
  const BASIC_DELIVER_METHOD: uint32 := 0x3C003C

  // ---------- frames by channel ----------

  function OnChannel<M, P>(fs: seq<Frame<M, P>>, channel: uint16): seq<Frame<M, P>> {
    if fs == [] then []
    else (if fs[0].channel == channel then [fs[0]] else []) + OnChannel(fs[1..], channel)
  }

  function WithoutHeartbeats<M, P>(fs: seq<Frame<M, P>>): seq<Frame<M, P>> {
    if fs == [] then []
    else (if fs[0].payload.Heartbeat? then [] else [fs[0]]) + WithoutHeartbeats(fs[1..])
  }

  lemma {:induction false} OnChannelAppend<M, P>(fs: seq<Frame<M, P>>, gs: seq<Frame<M, P>>, channel: uint16)
    ensures OnChannel(fs + gs, channel) == OnChannel(fs, channel) + OnChannel(gs, channel)
    decreases |fs|
  {
    if fs == [] {
      assert fs + gs == gs;
    } else {
      assert (fs + gs)[0] == fs[0] && (fs + gs)[1..] == fs[1..] + gs;
      OnChannelAppend(fs[1..], gs, channel);
      var head := if fs[0].channel == channel then [fs[0]] else [];
      var x, y := OnChannel(fs[1..], channel), OnChannel(gs, channel);
      assert OnChannel(fs, channel) == head + x && head + (x + y) == (head + x) + y;
    }
  }

  /** The frames a channel is still going to see, in order. */
  function Stream<M, P>(queue: seq<Frame<M, P>>, incoming: seq<Frame<M, P>>, channel: uint16): seq<Frame<M, P>> {
    OnChannel(queue, channel) + OnChannel(WithoutHeartbeats(incoming), channel)
  }

  lemma {:induction false} OnChannelHas<M, P>(fs: seq<Frame<M, P>>, channel: uint16, f: Frame<M, P>)
    ensures f in OnChannel(fs, channel) <==> f in fs && f.channel == channel
    decreases |fs|
  {
    if fs != [] {
      OnChannelHas(fs[1..], channel, f);
      assert fs == [fs[0]] + fs[1..];
    }
  }

  lemma {:induction false} WithoutHeartbeatsHas<M, P>(fs: seq<Frame<M, P>>, f: Frame<M, P>)
    ensures f in WithoutHeartbeats(fs) <==> f in fs && f.payload != Heartbeat
    decreases |fs|
  {
    if fs != [] {
      WithoutHeartbeatsHas(fs[1..], f);
      assert fs == [fs[0]] + fs[1..];
    }
  }

  /** A channel sees exactly its own frames: those set aside, and those to come but for heartbeats. */
  lemma SeenIff<M, P>(queue: seq<Frame<M, P>>, incoming: seq<Frame<M, P>>, channel: uint16, f: Frame<M, P>)
    ensures f in Stream(queue, incoming, channel) <==>
            f.channel == channel && (f in queue || (f in incoming && f.payload != Heartbeat))
  {
    hide OnChannel, WithoutHeartbeats;
    OnChannelHas(queue, channel, f);
    OnChannelHas(WithoutHeartbeats(incoming), channel, f);
    WithoutHeartbeatsHas(incoming, f);
  }

  /** What is left of the queue once a frame of `channel` has been taken out of it: everything in
      front of that frame is cut off with it. */
  function DropThrough<M, P>(queue: seq<Frame<M, P>>, channel: uint16): seq<Frame<M, P>> {
    if queue == [] then []
    else if queue[0].channel == channel then queue[1..]
    else DropThrough(queue[1..], channel)
  }

  lemma {:induction false} DropThroughTakesOne<M, P>(queue: seq<Frame<M, P>>, channel: uint16)
    requires OnChannel(queue, channel) != []
    ensures OnChannel(DropThrough(queue, channel), channel) == OnChannel(queue, channel)[1..]
    decreases |queue|
  {
    if queue[0].channel != channel {
      DropThroughTakesOne(queue[1..], channel);
    }
  }

  lemma {:induction false} DropThroughShrinks<M, P>(queue: seq<Frame<M, P>>, channel: uint16)
    ensures |DropThrough(queue, channel)| <= |queue| && (queue != [] ==> |DropThrough(queue, channel)| < |queue|)
    decreases |queue|
  {
    if queue != [] && queue[0].channel != channel {
      DropThroughShrinks(queue[1..], channel);
    }
  }

  lemma {:induction false} DropThroughIsSuffix<M, P>(queue: seq<Frame<M, P>>, channel: uint16, other: uint16)
    ensures |OnChannel(DropThrough(queue, channel), other)| <= |OnChannel(queue, other)|
    decreases |queue|
  {
    if queue != [] && queue[0].channel != channel {
      DropThroughIsSuffix(queue[1..], channel, other);
    }
  }

  // ---------- waiting for a frame of one channel ----------

  predicate IsNext<M, P>(f: Frame<M, P>, channel: uint16) {
    !f.payload.Heartbeat? && f.channel == channel
  }

  /** The frames read on the way to the first one of the channel, heartbeats aside. */
  function Skipped<M, P>(incoming: seq<Frame<M, P>>, channel: uint16): seq<Frame<M, P>> {
    if incoming == [] || IsNext(incoming[0], channel) then []
    else (if incoming[0].payload.Heartbeat? then [] else [incoming[0]]) + Skipped(incoming[1..], channel)
  }

  /** That frame and what is behind it. */
  function From<M, P>(incoming: seq<Frame<M, P>>, channel: uint16): seq<Frame<M, P>> {
    if incoming == [] || IsNext(incoming[0], channel) then incoming else From(incoming[1..], channel)
  }

  /** The frame waited for, and the queue and the connection after the wait. */
  datatype Waited<M, P> = Waited(frame: Option<Frame<M, P>>, queue: seq<Frame<M, P>>, incoming: seq<Frame<M, P>>)

  function Wait<M, P>(queue: seq<Frame<M, P>>, incoming: seq<Frame<M, P>>, channel: uint16): Waited<M, P> {
    var mine, rest := OnChannel(queue, channel), From(incoming, channel);
    if mine != [] then Waited(Some(mine[0]), DropThrough(queue, channel), incoming)
    else if rest == [] then Waited(None, queue + Skipped(incoming, channel), [])
    else Waited(Some(rest[0]), queue + Skipped(incoming, channel), rest[1..])
  }

  lemma {:induction false} SkippedAndFrom<M, P>(incoming: seq<Frame<M, P>>, channel: uint16)
    ensures var skipped, rest := Skipped(incoming, channel), From(incoming, channel);
            && WithoutHeartbeats(incoming) == skipped + WithoutHeartbeats(rest)
            && OnChannel(skipped, channel) == [] && |skipped| + |rest| <= |incoming|
            && (rest != [] ==> IsNext(rest[0], channel))
    decreases |incoming|
  {
    if incoming != [] && !IsNext(incoming[0], channel) {
      SkippedAndFrom(incoming[1..], channel);
      var head := if incoming[0].payload.Heartbeat? then [] else [incoming[0]];
      var tail := Skipped(incoming[1..], channel);
      assert head == [] ==> head + tail == tail;
      var rest := WithoutHeartbeats(From(incoming, channel));
      assert head + (tail + rest) == (head + tail) + rest;
    }
  }

  /** What a channel sees of a queue and a connection when skipped frames move from one to the other. */
  lemma StreamMoves<M, P>(queue: seq<Frame<M, P>>, incoming: seq<Frame<M, P>>, channel: uint16, c: uint16)
    ensures Stream(queue, incoming, c) ==
            OnChannel(queue + Skipped(incoming, channel), c) + OnChannel(WithoutHeartbeats(From(incoming, channel)), c)
  {
    hide OnChannel, WithoutHeartbeats, Skipped, From;
    var skipped, rest := Skipped(incoming, channel), WithoutHeartbeats(From(incoming, channel));
    SkippedAndFrom(incoming, channel);
    OnChannelAppend(queue, skipped, c);
    OnChannelAppend(skipped, rest, c);
    var x, y, z := OnChannel(queue, c), OnChannel(skipped, c), OnChannel(rest, c);
    assert x + (y + z) == (x + y) + z;
  }

  lemma HeadOnChannel<M, P>(rest: seq<Frame<M, P>>, channel: uint16, c: uint16)
    requires rest != [] && IsNext(rest[0], channel)
    ensures OnChannel(WithoutHeartbeats(rest), c) ==
            (if c == channel then [rest[0]] else []) + OnChannel(WithoutHeartbeats(rest[1..]), c)
  {
    assert WithoutHeartbeats(rest)[1..] == WithoutHeartbeats(rest[1..]);
  }

  /** The channel waited for sees its next frame, and no more. */
  lemma WaitTakesNext<M, P>(queue: seq<Frame<M, P>>, incoming: seq<Frame<M, P>>, channel: uint16)
    ensures var mine, w := Stream(queue, incoming, channel), Wait(queue, incoming, channel);
            if mine == [] then w.frame == None && Stream(w.queue, w.incoming, channel) == []
            else w.frame == Some(mine[0]) && Stream(w.queue, w.incoming, channel) == mine[1..]
  {
    hide WithoutHeartbeats, Skipped, From, DropThrough, IsNext;
    var here, skipped, rest := OnChannel(queue, channel), Skipped(incoming, channel), From(incoming, channel);
    if here != [] {
      DropThroughTakesOne(queue, channel);
      var there := OnChannel(WithoutHeartbeats(incoming), channel);
      assert (here + there)[1..] == here[1..] + there;
    } else {
      SkippedAndFrom(incoming, channel);
      OnChannelAppend(queue, skipped, channel);
      StreamMoves(queue, incoming, channel, channel);
      NoHeartbeats<M, P>();
      if rest != [] {
        HeadOnChannel(rest, channel, channel);
      }
    }
  }

  lemma NoHeartbeats<M, P>()
    ensures var none: seq<Frame<M, P>> := []; WithoutHeartbeats(none) == []
  {
  }

  lemma WaitQueuesOthers<M, P>(queue: seq<Frame<M, P>>, incoming: seq<Frame<M, P>>, channel: uint16, other: uint16)
    requires OnChannel(queue, channel) == [] && other != channel
    ensures var w := Wait(queue, incoming, channel);
            Stream(w.queue, w.incoming, other) == Stream(queue, incoming, other)
  {
    hide WithoutHeartbeats, Skipped, From, OnChannel, IsNext;
    var rest := From(incoming, channel);
    SkippedAndFrom(incoming, channel);
    StreamMoves(queue, incoming, channel, other);
    NoHeartbeats<M, P>();
    if rest != [] {
      HeadOnChannel(rest, channel, other);
    }
  }

  lemma WaitAtHeadKeeps<M, P>(queue: seq<Frame<M, P>>, incoming: seq<Frame<M, P>>, channel: uint16, other: uint16)
    requires queue != [] && queue[0].channel == channel != other
    ensures var w := Wait(queue, incoming, channel);
            Stream(w.queue, w.incoming, other) == Stream(queue, incoming, other)
  {
    hide WithoutHeartbeats, Skipped, From;
    assert OnChannel(queue, channel) == [queue[0]] + OnChannel(queue[1..], channel);
    assert OnChannel(queue, other) == OnChannel(queue[1..], other);
  }

  lemma WaitBehindLoses<M, P>(queue: seq<Frame<M, P>>, incoming: seq<Frame<M, P>>, channel: uint16)
    requires OnChannel(queue, channel) != [] && queue[0].channel != channel
    ensures var w, other := Wait(queue, incoming, channel), queue[0].channel;
            |Stream(w.queue, w.incoming, other)| < |Stream(queue, incoming, other)|
  {
    hide WithoutHeartbeats, Skipped, From;
    var other := queue[0].channel;
    DropThroughIsSuffix(queue[1..], channel, other);
    assert OnChannel(queue, other) == [queue[0]] + OnChannel(queue[1..], other);
  }

  /** Waiting on a channel leaves all other channels their frames exactly when the queue holds no frame
      of the channel, or is headed by one: frames queued in front of the match are lost. */
  lemma WaitKeepsOthersIff<M, P>(queue: seq<Frame<M, P>>, incoming: seq<Frame<M, P>>, channel: uint16)
    ensures var w := Wait(queue, incoming, channel);
            (forall c: uint16 :: c != channel ==> Stream(w.queue, w.incoming, c) == Stream(queue, incoming, c))
            <==> OnChannel(queue, channel) == [] || queue[0].channel == channel
  {
    hide Wait, Stream;
    if OnChannel(queue, channel) == [] || queue[0].channel == channel {
      forall c: uint16 | c != channel
        ensures var w := Wait(queue, incoming, channel); Stream(w.queue, w.incoming, c) == Stream(queue, incoming, c)
      {
        if OnChannel(queue, channel) == [] {
          WaitQueuesOthers(queue, incoming, channel, c);
        } else {
          WaitAtHeadKeeps(queue, incoming, channel, c);
        }
      }
    } else {
      WaitBehindLoses(queue, incoming, channel);
    }
  }

  lemma FirstFrame<M, P>(f: Frame<M, P>, rest: seq<Frame<M, P>>, channel: uint16)
    requires !f.payload.Heartbeat?
    ensures var fs := [f] + rest;
            && OnChannel(fs, channel) == (if f.channel == channel then [f] else []) + OnChannel(rest, channel)
            && WithoutHeartbeats(fs) == [f] + WithoutHeartbeats(rest)
            && DropThrough(fs, channel) == (if f.channel == channel then rest else DropThrough(rest, channel))
            && Skipped(fs, channel) == (if f.channel == channel then [] else [f] + Skipped(rest, channel))
            && From(fs, channel) == (if f.channel == channel then fs else From(rest, channel))
  {
    assert ([f] + rest)[1..] == rest;
  }

  /** A run that loses a frame: three frames of three channels arrive in order, the third is waited
      for and then the second, and the channel of the first has nothing left to see. */
  lemma FrameIsLost<M, P>(a: Frame<M, P>, b: Frame<M, P>, c: Frame<M, P>)
    requires a.channel != b.channel && b.channel != c.channel && c.channel != a.channel
    requires !a.payload.Heartbeat? && !b.payload.Heartbeat? && !c.payload.Heartbeat?
    ensures var first := Wait([], [a, b, c], c.channel);
            var second := Wait(first.queue, first.incoming, b.channel);
            && first == Waited(Some(c), [a, b], []) && second == Waited(Some(b), [], [])
            && Stream([], [a, b, c], a.channel) == [a] && Stream(second.queue, second.incoming, a.channel) == []
  {
    var none: seq<Frame<M, P>> := [];
    assert [a, b, c] == [a] + [b, c] && [b, c] == [b] + [c] && [c] == [c] + none;
    assert [a, b] == [a] + [b] && [b] == [b] + none;
    FirstWait(a, b, c);
    SecondWait(a, b);
    FirstFrame(a, [b, c], a.channel);
    FirstFrame(b, [c], a.channel);
    FirstFrame(c, none, a.channel);
  }

  lemma FirstWait<M, P>(a: Frame<M, P>, b: Frame<M, P>, c: Frame<M, P>)
    requires a.channel != c.channel && b.channel != c.channel
    requires !a.payload.Heartbeat? && !b.payload.Heartbeat? && !c.payload.Heartbeat?
    ensures Wait([], [a, b, c], c.channel) == Waited(Some(c), [a, b], [])
  {
    hide OnChannel, WithoutHeartbeats, DropThrough, Skipped, From;
    var none: seq<Frame<M, P>> := [];
    assert [a, b, c] == [a] + [b, c] && [b, c] == [b] + [c] && [c] == [c] + none;
    FirstFrame(a, [b, c], c.channel);
    FirstFrame(b, [c], c.channel);
    FirstFrame(c, none, c.channel);
    NothingOn<M, P>(c.channel);
  }

  lemma SecondWait<M, P>(a: Frame<M, P>, b: Frame<M, P>)
    requires a.channel != b.channel && !a.payload.Heartbeat? && !b.payload.Heartbeat?
    ensures Wait([a, b], [], b.channel) == Waited(Some(b), [], [])
  {
    hide OnChannel, WithoutHeartbeats, DropThrough, Skipped, From;
    var none: seq<Frame<M, P>> := [];
    assert [a, b] == [a] + [b] && [b] == [b] + none;
    FirstFrame(a, [b], b.channel);
    FirstFrame(b, none, b.channel);
  }

  lemma NothingOn<M, P>(channel: uint16)
    ensures var none: seq<Frame<M, P>> := []; OnChannel(none, channel) == []
  {
  }

  // ---------- reassembly ----------

  predicate IsClose<M, P>(f: Frame<M, P>) {
    f.payload.Method? && (f.payload.id == CHANNEL_CLOSE_METHOD || f.payload.id == CONNECTION_CLOSE_METHOD)
  }

  /** Why a message could not be read: the server closed the channel, or a library error. */
  datatype ReadError<M, P> = ServerException(close: Payload<M, P>) | LibraryException(status: Status)

  /** Result of reading, and how many frames of the channel that took. */
  datatype Read<T, M, P> = Read(result: Result<T, ReadError<M, P>>, taken: nat)

  function Complaint<M, P>(f: Frame<M, P>, status: Status): ReadError<M, P> {
    if IsClose(f) then ServerException(f.payload) else LibraryException(status)
  }

  /** Body frames until `need` bytes have arrived. */
  function Collect<M, P>(fs: seq<Frame<M, P>>, need: nat, stop: Status): Read<seq<byte>, M, P> {
    if need == 0 then Read(Success([]), 0)
    else if fs == [] then Read(Failure(LibraryException(stop)), 0)
    else if !fs[0].payload.Body? then Read(Failure(Complaint(fs[0], BadAmqpData)), 1)
    else if need < |fs[0].payload.fragment| then Read(Failure(LibraryException(BadAmqpData)), 1)
    else
      var rest := Collect(fs[1..], need - |fs[0].payload.fragment|, stop);
      Read(match rest.result
           case Success(b) => Success(fs[0].payload.fragment + b)
           case Failure(e) => Failure(e), 1 + rest.taken)
  }

  datatype Message<P> = Message(props: P, body: seq<byte>)

  /** A message from the frames of its channel.  A frame that is no header is put back unless it
      announces a close. */
  function ReadFrom<M, P>(fs: seq<Frame<M, P>>, stop: Status): Read<Message<P>, M, P> {
    if fs == [] then Read(Failure(LibraryException(stop)), 0)
    else if !fs[0].payload.Header? then
      Read(Failure(Complaint(fs[0], UnexpectedState)), if IsClose(fs[0]) then 1 else 0)
    else
      var rest := Collect(fs[1..], fs[0].payload.bodySize, stop);
      Read(match rest.result
           case Success(b) => Success(Message(fs[0].payload.props, b))
           case Failure(e) => Failure(e), 1 + rest.taken)
  }

  function BodyBytes<M, P>(fs: seq<Frame<M, P>>): seq<byte> {
    if fs == [] then []
    else (if fs[0].payload.Body? then fs[0].payload.fragment else []) + BodyBytes(fs[1..])
  }

  /** The first `k` frames are body frames whose lengths add up to `size`, and no fewer reach it. */
  ghost predicate ShortestRun<M, P>(fs: seq<Frame<M, P>>, size: nat, k: nat) {
    && k <= |fs|
    && (forall i :: 0 <= i < k ==> fs[i].payload.Body?)
    && |BodyBytes(fs[..k])| == size
    && (forall j :: 0 <= j < k ==> |BodyBytes(fs[..j])| < size)
  }

  lemma BodyBytesStep<M, P>(fs: seq<Frame<M, P>>, k: nat)
    requires 0 < k <= |fs| && fs[0].payload.Body?
    ensures BodyBytes(fs[..k]) == fs[0].payload.fragment + BodyBytes(fs[1..][..k - 1])
  {
    assert fs[..k][0] == fs[0] && fs[..k][1..] == fs[1..][..k - 1];
  }

  lemma {:induction false} CollectedIsShortestRun<M, P>(fs: seq<Frame<M, P>>, need: nat, stop: Status)
    requires Collect(fs, need, stop).result.Success?
    ensures var c := Collect(fs, need, stop);
            ShortestRun(fs, need, c.taken) && c.result.value == BodyBytes(fs[..c.taken])
    decreases |fs|
  {
    if need != 0 {
      var k := Collect(fs, need, stop).taken;
      CollectedIsShortestRun(fs[1..], need - |fs[0].payload.fragment|, stop);
      forall j | 0 < j <= k
        ensures BodyBytes(fs[..j]) == fs[0].payload.fragment + BodyBytes(fs[1..][..j - 1])
      {
        BodyBytesStep(fs, j);
      }
    }
  }

  lemma {:induction false} ShortestRunIsCollected<M, P>(fs: seq<Frame<M, P>>, need: nat, stop: Status, k: nat)
    requires ShortestRun(fs, need, k)
    ensures Collect(fs, need, stop) == Read(Success(BodyBytes(fs[..k])), k)
    decreases |fs|
  {
    if need == 0 {
      var none := BodyBytes(fs[..0]);
      assert k == 0;
    } else {
      assert k != 0;
      var tail, n := fs[1..], |fs[0].payload.fragment|;
      BodyBytesStep(fs, k);
      forall j | 0 <= j < k - 1
        ensures |BodyBytes(tail[..j])| + n == |BodyBytes(fs[..j + 1])|
      {
        BodyBytesStep(fs, j + 1);
      }
      ShortestRunIsCollected(tail, need - n, stop, k - 1);
    }
  }

  /** A message is read exactly when a header is followed by a shortest run of body frames that
      hits the announced size; it is then the concatenation of that run and nothing more is taken. */
  lemma ReadIffShortestRun<M, P>(fs: seq<Frame<M, P>>, stop: Status)
    ensures ReadFrom(fs, stop).result.Success? <==>
            fs != [] && fs[0].payload.Header? && exists k: nat :: ShortestRun(fs[1..], fs[0].payload.bodySize, k)
    ensures forall k: nat :: fs != [] && fs[0].payload.Header? && ShortestRun(fs[1..], fs[0].payload.bodySize, k)
              ==> ReadFrom(fs, stop) == Read(Success(Message(fs[0].payload.props, BodyBytes(fs[1..][..k]))), 1 + k)
  {
    if fs != [] && fs[0].payload.Header? {
      var size := fs[0].payload.bodySize;
      forall k: nat | ShortestRun(fs[1..], size, k)
        ensures ReadFrom(fs, stop) == Read(Success(Message(fs[0].payload.props, BodyBytes(fs[1..][..k]))), 1 + k)
      {
        ShortestRunIsCollected(fs[1..], size, stop, k);
      }
      if Collect(fs[1..], size, stop).result.Success? {
        CollectedIsShortestRun(fs[1..], size, stop);
      }
    }
  }

  /** channel.close or connection.close */
  ghost predicate Closes<M, P>(f: Frame<M, P>) {
    f.payload.Method? && (f.payload.id == 0x14_0028 || f.payload.id == 0xA_0032)
  }

  /** `k` body frames that do not reach the announced size. */
  ghost predicate FallsShort<M, P>(fs: seq<Frame<M, P>>, size: nat, k: nat) {
    k <= |fs| && (forall i :: 0 <= i < k ==> fs[i].payload.Body?) && |BodyBytes(fs[..k])| < size
  }

  /** Why a body cannot be collected: the frames end too early, or the last of the `taken` frames is
      not a body frame, or goes beyond the announced size. */
  ghost predicate BodyFails<M, P>(fs: seq<Frame<M, P>>, size: nat, stop: Status, e: ReadError<M, P>, taken: nat) {
    || (taken == |fs| && FallsShort(fs, size, taken) && e == LibraryException(stop))
    || (&& 0 < taken <= |fs| && FallsShort(fs, size, taken - 1)
        && match fs[taken - 1].payload
           case Body(fragment) =>
             size < |BodyBytes(fs[..taken - 1])| + |fragment| && e == LibraryException(BadAmqpData)
           case other =>
             e == if Closes(fs[taken - 1]) then ServerException(other) else LibraryException(BadAmqpData))
  }

  lemma BodyFailsNext<M, P>(fs: seq<Frame<M, P>>, size: nat, stop: Status, e: ReadError<M, P>, taken: nat)
    requires fs != [] && fs[0].payload.Body? && |fs[0].payload.fragment| < size && 0 < taken
    ensures BodyFails(fs, size, stop, e, taken) <==>
            BodyFails(fs[1..], size - |fs[0].payload.fragment|, stop, e, taken - 1)
  {
    if taken <= |fs| {
      BodyBytesStep(fs, taken);
      if 1 < taken {
        BodyBytesStep(fs, taken - 1);
      }
    }
  }

  /** The cases in which no further frame matters. */
  lemma CollectFailsHere<M, P>(fs: seq<Frame<M, P>>, size: nat, stop: Status, e: ReadError<M, P>, taken: nat)
    requires size == 0 || fs == [] || !fs[0].payload.Body? || size <= |fs[0].payload.fragment| || taken == 0
    ensures Collect(fs, size, stop) == Read(Failure(e), taken) <==> BodyFails(fs, size, stop, e, taken)
  {
    hide Closes;
    if size != 0 && fs != [] {
      assert fs[..0] == [];
      if fs[0].payload.Body? && 1 < taken <= |fs| {
        BodyBytesStep(fs, taken - 1);
      }
    }
    if fs != [] {
      CloseIsClose(fs[0]);
    }
  }

  lemma CloseIsClose<M, P>(f: Frame<M, P>)
    ensures IsClose(f) <==> Closes(f)
  {
  }

  lemma {:induction false} CollectFailsIff<M, P>(fs: seq<Frame<M, P>>, size: nat, stop: Status,
                                                 e: ReadError<M, P>, taken: nat)
    ensures Collect(fs, size, stop) == Read(Failure(e), taken) <==> BodyFails(fs, size, stop, e, taken)
    decreases |fs|
  {
    hide BodyFails;
    if size != 0 && fs != [] && fs[0].payload.Body? && |fs[0].payload.fragment| < size && 0 < taken {
      CollectFailsIff(fs[1..], size - |fs[0].payload.fragment|, stop, e, taken - 1);
      BodyFailsNext(fs, size, stop, e, taken);
    } else {
      CollectFailsHere(fs, size, stop, e, taken);
    }
  }

  /** Exactly when and why no message is read: there is no frame, a frame that is no header (which is
      put back unless it is a close), or a body that cannot be collected. */
  lemma ReadFailsIff<M, P>(fs: seq<Frame<M, P>>, stop: Status, e: ReadError<M, P>, taken: nat)
    ensures ReadFrom(fs, stop) == Read(Failure(e), taken) <==>
            if fs == [] then taken == 0 && e == LibraryException(stop)
            else
              match fs[0].payload
              case Header(_, size, _) => 0 < taken && BodyFails(fs[1..], size, stop, e, taken - 1)
              case other =>
                if Closes(fs[0]) then taken == 1 && e == ServerException(other)
                else taken == 0 && e == LibraryException(UnexpectedState)
  {
    hide BodyFails, Collect;
    if fs != [] && fs[0].payload.Header? && 0 < taken {
      CollectFailsIff(fs[1..], fs[0].payload.bodySize, stop, e, taken - 1);
    }
  }

  function SkipHeartbeats<M, P>(incoming: seq<Frame<M, P>>): seq<Frame<M, P>> {
    if incoming == [] || !incoming[0].payload.Heartbeat? then incoming else SkipHeartbeats(incoming[1..])
  }

  lemma {:induction false} HeartbeatsSkipped<M, P>(incoming: seq<Frame<M, P>>)
    ensures var rest := SkipHeartbeats(incoming);
            && |rest| <= |incoming| && WithoutHeartbeats(rest) == WithoutHeartbeats(incoming)
            && (rest != [] ==>
                  && !rest[0].payload.Heartbeat?
                  && WithoutHeartbeats(rest) == [rest[0]] + WithoutHeartbeats(rest[1..]))
    decreases |incoming|
  {
    if incoming != [] && incoming[0].payload.Heartbeat? {
      HeartbeatsSkipped(incoming[1..]);
    }
  }

  lemma {:induction false} SkippedBehindHeartbeats<M, P>(incoming: seq<Frame<M, P>>, channel: uint16)
    ensures var rest := SkipHeartbeats(incoming);
            && Skipped(rest, channel) == Skipped(incoming, channel) && From(rest, channel) == From(incoming, channel)
            && (rest != [] && rest[0].channel != channel ==>
                  && Skipped(rest, channel) == [rest[0]] + Skipped(rest[1..], channel)
                  && From(rest, channel) == From(rest[1..], channel))
            && (rest == [] || rest[0].channel == channel ==>
                  Skipped(rest, channel) == [] && From(rest, channel) == rest)
    decreases |incoming|
  {
    if incoming != [] && incoming[0].payload.Heartbeat? {
      SkippedBehindHeartbeats(incoming[1..], channel);
    }
  }

  lemma WaitShrinks<M, P>(queue: seq<Frame<M, P>>, incoming: seq<Frame<M, P>>, channel: uint16)
    ensures var w := Wait(queue, incoming, channel);
            w.frame.Some? ==> |w.queue| + |w.incoming| < |queue| + |incoming| && w.frame.value.channel == channel
  {
    hide Skipped, From, OnChannel, DropThrough;
    if OnChannel(queue, channel) != [] {
      DropThroughShrinks(queue, channel);
      OnChannelIsThere(queue, channel);
    } else {
      SkippedAndFrom(incoming, channel);
    }
  }

  lemma {:induction false} OnChannelIsThere<M, P>(fs: seq<Frame<M, P>>, channel: uint16)
    requires OnChannel(fs, channel) != []
    ensures fs != [] && OnChannel(fs, channel)[0].channel == channel
    decreases |fs|
  {
    if fs[0].channel != channel {
      OnChannelIsThere(fs[1..], channel);
    }
  }

  // ---------- the inbox of a connection ----------

  class Inbox<M, P> {
    /** Frames set aside, frames the parser is going to deliver, and the error that ends them. */
    var queue: seq<Frame<M, P>>
    var incoming: seq<Frame<M, P>>
    const stop: Status

    ghost function Pending(channel: uint16): seq<Frame<M, P>>
      reads this
    {
      Stream(queue, incoming, channel)
    }

    ghost function Size(): nat
      reads this
    {
      |queue| + |incoming|
    }

    constructor (incoming: seq<Frame<M, P>>, stop: Status)
      ensures queue == [] && this.incoming == incoming && this.stop == stop
    {
      queue, this.incoming, this.stop := [], incoming, stop;
    }

    /** wait_frame_inner: the next frame that is no heartbeat. */
    method WaitFrameInner() returns (r: Result<Frame<M, P>, Status>)
      modifies this`incoming
      ensures var rest := SkipHeartbeats(old(incoming));
              if rest == [] then r == Failure(stop) && incoming == []
              else r == Success(rest[0]) && incoming == rest[1..]
    {
      while incoming != []
        invariant SkipHeartbeats(incoming) == SkipHeartbeats(old(incoming))
        decreases |incoming|
      {
        var frame := incoming[0];
        incoming := incoming[1..];
        if frame.payload.Heartbeat? {
          continue;
        }
        return Success(frame);
      }
      return Failure(stop);
    }

    /** amqp_put_back_frame */
    method PutBackFrame(frame: Frame<M, P>)
      modifies this`queue
      ensures queue == [frame] + old(queue)
    {
      queue := [frame] + queue;
    }

    /** The search of amqp_simple_wait_frame_on_channel in the queue. */
    method TakeQueued(channel: uint16) returns (r: Option<Frame<M, P>>)
      modifies this`queue
      ensures var mine := OnChannel(old(queue), channel);
              if mine == [] then r == None && queue == old(queue)
              else r == Some(mine[0]) && mine[0].channel == channel && queue == DropThrough(old(queue), channel)
    {
      var i := 0;
      assert queue[0..] == queue;
      while i < |queue|
        invariant i <= |queue| && queue == old(queue)
        invariant OnChannel(queue[i..], channel) == OnChannel(queue, channel)
        invariant DropThrough(queue[i..], channel) == DropThrough(queue, channel)
      {
        var frame := queue[i];
        assert queue[i..][0] == frame && queue[i..][1..] == queue[i + 1..];
        if channel == frame.channel {
          queue := queue[i + 1..];
          return Some(frame);
        }
        i := i + 1;
      }
      return None;
    }

    /** amqp_simple_wait_frame_on_channel: the next frame of the channel, from the queue or from the
        connection; frames of other channels read on the way are queued. */
    method WaitFrameOnChannel(channel: uint16) returns (r: Result<Frame<M, P>, Status>)
      modifies this
      ensures Wait(old(queue), old(incoming), channel) ==
              Waited(match r case Success(f) => Some(f) case Failure(_) => None, queue, incoming)
      ensures r.Failure? ==> r.error == stop
    {
      var queued := TakeQueued(channel);
      if queued.Some? {
        return Success(queued.value);
      }
      while true
        invariant queue + Skipped(incoming, channel) == old(queue) + Skipped(old(incoming), channel)
        invariant From(incoming, channel) == From(old(incoming), channel)
        decreases |incoming|
      {
        SkippedBehindHeartbeats(incoming, channel);
        HeartbeatsSkipped(incoming);
        var next := WaitFrameInner();
        if next.Failure? {
          assert queue + [] == queue;
          return Failure(next.error);
        }
        if channel == next.value.channel {
          assert queue + [] == queue;
          return Success(next.value);
        }
        ghost var skipped := Skipped(incoming, channel);
        assert (queue + [next.value]) + skipped == queue + ([next.value] + skipped);
        queue := queue + [next.value];
      }
    }

    /** amqp_read_message: exactly what ReadFrom says of the frames of the channel.  The body is
        collected in place in a buffer of the announced size. */
    method ReadMessage(channel: uint16) returns (r: Result<P, ReadError<M, P>>, body: array<byte>)
      modifies this
      ensures fresh(body)
      ensures var mine := old(Pending(channel)); var read := ReadFrom(mine, stop);
              && read.taken <= |mine| && Pending(channel) == mine[read.taken..]
              && match read.result
                 case Success(m) => r == Success(m.props) && body[..] == m.body
                 case Failure(e) => r == Failure(e)
    {
      ghost var mine := Pending(channel);
      body := new byte[0];
      var first := Next(channel);
      if first.Failure? {
        return Failure(LibraryException(first.error)), body;
      }
      var frame := first.value;
      if !frame.payload.Header? {
        if IsClose(frame) {
          return Failure(ServerException(frame.payload)), body;
        }
        PutBackIsSeen(frame, queue, incoming, mine);
        PutBackFrame(frame);
        return Failure(LibraryException(UnexpectedState)), body;
      }
      r, body := ReadRest(channel, frame, mine);
    }

    /** amqp_read_message once the header is there. */
    method ReadRest(channel: uint16, frame: Frame<M, P>, ghost mine: seq<Frame<M, P>>)
      returns (r: Result<P, ReadError<M, P>>, body: array<byte>)
      requires frame.payload.Header? && mine != [] && frame == mine[0] && Pending(channel) == mine[1..]
      modifies this
      ensures fresh(body)
      ensures var read := ReadFrom(mine, stop);
              && read.taken <= |mine| && Pending(channel) == mine[read.taken..]
              && match read.result
                 case Success(m) => r == Success(m.props) && body[..] == m.body
                 case Failure(e) => r == Failure(e)
    {
      hide Stream, Collect;
      var error;
      ghost var taken;
      body, error, taken := ReadBody(channel, frame.payload.bodySize);
      assert mine[1..][taken..] == mine[1 + taken..];
      r := match error case Some(e) => Failure(e) case None => Success(frame.payload.props);
    }

    /** The wait as the channel itself sees it. */
    method Next(channel: uint16) returns (r: Result<Frame<M, P>, Status>)
      modifies this
      ensures var mine := old(Pending(channel));
              if mine == [] then r == Failure(stop) && Pending(channel) == []
              else r == Success(mine[0]) && mine[0].channel == channel && Pending(channel) == mine[1..]
      ensures r.Success? ==> Size() < old(Size())
    {
      hide Wait, Stream;
      WaitTakesNext(queue, incoming, channel);
      WaitShrinks(queue, incoming, channel);
      r := WaitFrameOnChannel(channel);
    }

    /** One turn of the loop over the body frames: the next fragment is copied behind the
        `bodyRead` bytes that are there. */
    method ReadFragment(channel: uint16, body: array<byte>, bodyRead: nat) returns (r: Result<nat, ReadError<M, P>>)
      requires bodyRead < body.Length
      modifies this, body
      ensures var mine := old(Pending(channel)); var read := Collect(mine, body.Length - bodyRead, stop);
              match r
              case Failure(e) =>
                read.result == Failure(e) && read.taken <= |mine| && Pending(channel) == mine[read.taken..]
              case Success(n) =>
                && mine != [] && mine[0].payload.Body? && n == |mine[0].payload.fragment| <= body.Length - bodyRead
                && body[..bodyRead + n] == old(body[..bodyRead]) + mine[0].payload.fragment
                && Pending(channel) == mine[1..]
      ensures r.Success? ==> Size() < old(Size())
    {
      var next := Next(channel);
      if next.Failure? {
        return Failure(LibraryException(next.error));
      }
      var frame := next.value;
      if !frame.payload.Body? {
        return Failure(Complaint(frame, BadAmqpData));
      }
      var fragment := frame.payload.fragment;
      if body.Length < bodyRead + |fragment| {
        return Failure(LibraryException(BadAmqpData));
      }
      CopyInto(body, bodyRead, fragment);
      return Success(|fragment|);
    }

    /** The loop over the body frames. */
    method ReadBody(channel: uint16, size: nat)
      returns (body: array<byte>, error: Option<ReadError<M, P>>, ghost taken: nat)
      modifies this
      ensures fresh(body)
      ensures var mine := old(Pending(channel)); var read := Collect(mine, size, stop);
              && taken == read.taken <= |mine| && Pending(channel) == mine[taken..]
              && match read.result
                 case Success(b) => error == None && body[..] == b
                 case Failure(e) => error == Some(e)
    {
      hide *;
      ghost var mine := Pending(channel);
      ghost var goal := Collect(mine, size, stop);
      ghost var have, rest := [], mine;
      body := new byte[size];
      taken := 0;
      var bodyRead: nat := 0;
      RemainsStart(goal);
      while bodyRead < body.Length
        invariant bodyRead <= size == body.Length && body[..bodyRead] == have
        invariant taken <= |mine| && rest == mine[taken..] == Pending(channel)
        invariant Remains(goal, have, taken, Collect(rest, size - bodyRead, stop))
        decreases Size()
      {
        var n := ReadFragment(channel, body, bodyRead);
        if n.Failure? {
          ghost var more := Collect(rest, size - bodyRead, stop).taken;
          RemainsFailed(goal, have, taken, Collect(rest, size - bodyRead, stop));
          assert rest[more..] == mine[taken + more..];
          return body, Some(n.error), taken + more;
        }
        RemainsStep(goal, have, taken, rest, size - bodyRead, stop);
        have, rest, taken := have + rest[0].payload.fragment, rest[1..], taken + 1;
        bodyRead := bodyRead + n.value;
      }
      RemainsNothing(goal, have, taken, rest, stop);
      assert body[..bodyRead] == body[..];
      return body, None, taken;
    }

    /** amqp_simple_wait_frame_noblock: the next frame of any channel. */
    method WaitFrameNoblock() returns (r: Result<Frame<M, P>, Status>)
      modifies this
      ensures var all := old(queue + WithoutHeartbeats(incoming));
              if all == [] then r == Failure(stop) && queue == [] && WithoutHeartbeats(incoming) == []
              else r == Success(all[0]) && queue + WithoutHeartbeats(incoming) == all[1..]
    {
      if queue != [] {
        r := Success(queue[0]);
        ghost var visible := WithoutHeartbeats(incoming);
        assert (queue + visible)[1..] == queue[1..] + visible;
        queue := queue[1..];
      } else {
        HeartbeatsSkipped(incoming);
        ghost var visible := WithoutHeartbeats(incoming);
        assert queue + visible == visible;
        r := WaitFrameInner();
        ghost var rest := WithoutHeartbeats(incoming);
        assert queue + rest == rest;
        NoHeartbeats<M, P>();
      }
    }

    /** amqp_consume_message: a deliver method and the message behind it.  Any other frame is put
        back, so that nothing is lost. */
    method ConsumeMessage() returns (r: Result<Envelope<M, P>, ReadError<M, P>>, body: array<byte>)
      modifies this
      ensures fresh(body)
      ensures var all := old(queue + WithoutHeartbeats(incoming));
              if all == [] then r == Failure(LibraryException(stop)) && queue + WithoutHeartbeats(incoming) == []
              else if !(all[0].payload.Method? && all[0].payload.id == 0x3C_003C) then
                r == Failure(LibraryException(UnexpectedState)) && queue + WithoutHeartbeats(incoming) == all
              else
                var mine, channel := OnChannel(all[1..], all[0].channel), all[0].channel;
                var read := ReadFrom(mine, stop);
                && read.taken <= |mine| && Pending(channel) == mine[read.taken..]
                && match read.result
                case Success(m) => r == Success(Envelope(channel, all[0].payload.args, m.props)) && body[..] == m.body
                case Failure(e) => r == Failure(e)
    {
      body := new byte[0];
      ghost var all := queue + WithoutHeartbeats(incoming);
      var first := WaitFrameNoblock();
      if first.Failure? {
        return Failure(LibraryException(first.error)), body;
      }
      var frame := first.value;
      if !IsDeliver(frame) {
        PutBackFrame(frame);
        assert queue + WithoutHeartbeats(incoming) == [frame] + all[1..] == all;
        return Failure(LibraryException(UnexpectedState)), body;
      }
      OnChannelAppend(queue, WithoutHeartbeats(incoming), frame.channel);
      var read;
      read, body := ReadMessage(frame.channel);
      r := match read
           case Failure(e) => Failure(e)
           case Success(props) => Success(Envelope(frame.channel, frame.payload.args, props));
    }
  }

  /** The lost frame on a real inbox. */
  method LoseFrame<M, P>(inbox: Inbox<M, P>, a: Frame<M, P>, b: Frame<M, P>, c: Frame<M, P>)
    returns (first: Result<Frame<M, P>, Status>, second: Result<Frame<M, P>, Status>)
    requires inbox.queue == [] && inbox.incoming == [a, b, c]
    requires a.channel != b.channel && b.channel != c.channel && c.channel != a.channel
    requires !a.payload.Heartbeat? && !b.payload.Heartbeat? && !c.payload.Heartbeat?
    modifies inbox
    ensures first == Success(c) && second == Success(b) && inbox.queue == [] && inbox.incoming == []
    ensures old(inbox.Pending(a.channel)) == [a] && inbox.Pending(a.channel) == []
  {
    hide Wait, Stream;
    FrameIsLost(a, b, c);
    first := inbox.WaitFrameOnChannel(c.channel);
    second := inbox.WaitFrameOnChannel(b.channel);
  }

  method CopyInto(body: array<byte>, offset: nat, fragment: seq<byte>)
    requires offset + |fragment| <= body.Length
    modifies body
    ensures body[..offset + |fragment|] == old(body[..offset]) + fragment
  {
    forall i | 0 <= i < |fragment| {
      body[offset + i] := fragment[i];
    }
  }

  lemma PutBackIsSeen<M, P>(frame: Frame<M, P>, queue: seq<Frame<M, P>>, incoming: seq<Frame<M, P>>,
                            mine: seq<Frame<M, P>>)
    requires mine != [] && frame == mine[0] && Stream(queue, incoming, frame.channel) == mine[1..]
    ensures Stream([frame] + queue, incoming, frame.channel) == mine
  {
    assert ([frame] + queue)[1..] == queue;
    assert OnChannel([frame] + queue, frame.channel) == [frame] + OnChannel(queue, frame.channel);
  }

  /** `goal` is what `have`, collected from `taken` frames, and the frames of `rest` amount to. */
  ghost predicate Remains<M, P>(goal: Read<seq<byte>, M, P>, have: seq<byte>, taken: nat, rest: Read<seq<byte>, M, P>) {
    && goal.taken == taken + rest.taken
    && match rest.result
       case Success(b) => goal.result == Success(have + b)
       case Failure(e) => goal.result == Failure(e)
  }

  lemma RemainsStart<M, P>(goal: Read<seq<byte>, M, P>)
    ensures Remains(goal, [], 0, goal)
  {
    assert goal.result.Success? ==> [] + goal.result.value == goal.result.value;
  }

  lemma RemainsFailed<M, P>(goal: Read<seq<byte>, M, P>, have: seq<byte>, taken: nat, rest: Read<seq<byte>, M, P>)
    requires rest.result.Failure? && Remains(goal, have, taken, rest)
    ensures goal.result == Failure(rest.result.error) && goal.taken == taken + rest.taken
  {
  }

  lemma RemainsNothing<M, P>(goal: Read<seq<byte>, M, P>, have: seq<byte>, taken: nat, fs: seq<Frame<M, P>>,
                             stop: Status)
    requires Remains(goal, have, taken, Collect(fs, 0, stop))
    ensures goal == Read(Success(have), taken)
  {
    assert have + [] == have;
  }

  lemma RemainsStep<M, P>(goal: Read<seq<byte>, M, P>, have: seq<byte>, taken: nat, fs: seq<Frame<M, P>>, need: nat,
                          stop: Status)
    requires 0 < need && fs != [] && fs[0].payload.Body? && |fs[0].payload.fragment| <= need
    requires Remains(goal, have, taken, Collect(fs, need, stop))
    ensures var fragment := fs[0].payload.fragment;
            Remains(goal, have + fragment, taken + 1, Collect(fs[1..], need - |fragment|, stop))
  {
    var fragment, rest := fs[0].payload.fragment, Collect(fs[1..], need - |fs[0].payload.fragment|, stop);
    if rest.result.Success? {
      assert have + (fragment + rest.result.value) == (have + fragment) + rest.result.value;
    }
  }

  predicate IsDeliver<M, P>(f: Frame<M, P>) {
    f.payload.Method? && f.payload.id == BASIC_DELIVER_METHOD
  }

  datatype Envelope<M, P> = Envelope(channel: uint16, delivery: M, props: P)
}

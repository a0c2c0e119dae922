/** The whole way of a message: cut into frames, printed, split anywhere, parsed, reassembled. */
module EndToEnd {
  import opened Options
  import opened Wire
  import opened Frames
  import opened Publishing
  import opened Delivery
  import opened Connections

  /** The frames of one message are read back as that message, whatever comes behind them. */
  lemma ReassembleFragments<M, P>(channel: uint16, args: M, props: P, body: seq<byte>, frameMax: nat,
                                  more: seq<Frame<M, P>>, stop: Status)
    requires 8 < frameMax && |body| < 0x1_0000_0000_0000_0000
    ensures var frames := MessageFrames(channel, args, props, body, frameMax);
            ReadFrom(frames[1..] + more, stop) == Read(Success(Message(props, body)), |frames| - 1)
  {
    var fragments := Fragments(body, frameMax - 8);
    var frames := MessageFrames(channel, args, props, body, frameMax);
    FragmentsPartition(body, frameMax - 8);
    ReadHeaderAndFragments(frames[1..] + more, channel, props, fragments, more, stop);
  }

  lemma ReadHeaderAndFragments<M, P>(fs: seq<Frame<M, P>>, channel: uint16, props: P, fragments: seq<seq<byte>>,
                                     more: seq<Frame<M, P>>, stop: Status)
    requires |Flatten(fragments)| < 0x1_0000_0000_0000_0000
    requires fs == [Frame(channel, Header(BASIC_CLASS, |Flatten(fragments)|, props))]
                   + BodyFrames(channel, fragments) + more
    requires forall i :: 0 <= i < |fragments| ==> fragments[i] != []
    ensures ReadFrom(fs, stop) == Read(Success(Message(props, Flatten(fragments))), 1 + |fragments|)
  {
    assert fs[1..] == BodyFrames(channel, fragments) + more;
    CollectFragments(channel, fragments, more, stop);
  }

  lemma {:induction false} CollectFragments<M, P>(channel: uint16, fragments: seq<seq<byte>>, more: seq<Frame<M, P>>,
                                                  stop: Status)
    requires forall i :: 0 <= i < |fragments| ==> fragments[i] != []
    ensures Collect(BodyFrames(channel, fragments) + more, |Flatten(fragments)|, stop)
            == Read(Success(Flatten(fragments)), |fragments|)
    decreases |fragments|
  {
    if fragments != [] {
      var fs := BodyFrames(channel, fragments) + more;
      assert fs[1..] == BodyFrames(channel, fragments[1..]) + more;
      assert fragments[0] != [];
      CollectFragments(channel, fragments[1..], more, stop);
    }
  }

  /** Everything the two codec directions owe each other on a list of frames. */
  ghost predicate AllReadBack<M(!new), P(!new)>(c: Codec<M, P>, fs: seq<Frame<M, P>>) {
    EncodersRespectRoom(c) && forall i :: 0 <= i < |fs| ==> ReadsBack(c, fs[i].payload)
  }

  /** Printable traffic, delivered in arbitrary chunks, is received as it was sent. */
  lemma TrafficArrives<M(!new), P(!new)>(c: Codec<M, P>, frameMax: nat, sent: seq<Frame<M, P>>, chunks: seq<seq<byte>>)
    requires frameMax < 0x8000_0000 && AllReadBack(c, sent)
    requires Join(Encodings(c, sent, frameMax)).error.None?
    requires Flatten(chunks) == Join(Encodings(c, sent, frameMax)).bytes
    ensures Run(c, frameMax, Reader(false, []), chunks) == Parsed(sent, Reader(false, []), None)
  {
    var start := Reader(false, []);
    RunIsParse(c, frameMax, start, chunks);
    assert Extend(start, Flatten(chunks)) == Reader(false, Flatten(chunks));
    StreamRoundTrip(c, frameMax, sent, frameMax);
  }

  /** End to end.  `sent` is any printable traffic in which `channel`, heartbeats aside, sees the
      frames of a published message and then `more`; it may be interleaved with other channels and
      is delivered in arbitrary chunks.  The receiver reads exactly that message and stops there. */
  lemma PublishedMessageArrives<M(!new), P(!new)>(
      c: Codec<M, P>, frameMax: nat, channel: uint16, args: M, props: P, body: seq<byte>,
      sent: seq<Frame<M, P>>, more: seq<Frame<M, P>>, chunks: seq<seq<byte>>, stop: Status)
    requires 8 < frameMax < 0x8000_0000 && |body| < 0x1_0000_0000_0000_0000
    requires AllReadBack(c, sent) && Join(Encodings(c, sent, frameMax)).error.None?
    requires Stream([], sent, channel) == MessageFrames(channel, args, props, body, frameMax) + more
    requires Flatten(chunks) == Join(Encodings(c, sent, frameMax)).bytes
    ensures var run := Run(c, frameMax, Reader(false, []), chunks);
            var mine := Stream([], run.frames, channel);
            && run.error == None && run.frames == sent
            && mine != [] && mine[0] == Frame(channel, Method(BASIC_PUBLISH_METHOD, args))
            && ReadFrom(mine[1..], stop) == Read(Success(Message(props, body)), |mine| - 1 - |more|)
  {
    TrafficArrives(c, frameMax, sent, chunks);
    var frames := MessageFrames(channel, args, props, body, frameMax);
    ReassembleFragments(channel, args, props, body, frameMax, more, stop);
    assert (frames + more)[1..] == frames[1..] + more;
  }

  // ---------- the same on the classes ----------

  /** The data in chunks of the given lengths, as far as it reaches, and a last chunk with the rest. */
  function Cut(data: seq<byte>, lengths: seq<nat>): seq<seq<byte>> {
    if lengths == [] then [data]
    else
      var n := if lengths[0] < |data| then lengths[0] else |data|;
      [data[..n]] + Cut(data[n..], lengths[1..])
  }

  lemma {:induction false} CutIsSplit(data: seq<byte>, lengths: seq<nat>)
    ensures Flatten(Cut(data, lengths)) == data
    decreases |lengths|
  {
    if lengths == [] {
      assert [data][1..] == [];
    } else {
      var n := if lengths[0] < |data| then lengths[0] else |data|;
      CutIsSplit(data[n..], lengths[1..]);
      assert ([data[..n]] + Cut(data[n..], lengths[1..]))[1..] == Cut(data[n..], lengths[1..]);
    }
  }

  function LengthsOf(chunks: seq<seq<byte>>): seq<nat> {
    if |chunks| <= 1 then [] else [|chunks[0]|] + LengthsOf(chunks[1..])
  }

  /** Every way to split data into chunks is such a cut. */
  lemma {:induction false} EverySplitIsCut(chunks: seq<seq<byte>>)
    requires chunks != []
    ensures Cut(Flatten(chunks), LengthsOf(chunks)) == chunks
    decreases |chunks|
  {
    hide Cut;
    var rest := chunks[1..];
    if |chunks| == 1 {
      CutNothing(chunks[0]);
      assert rest == [] && Flatten(rest) == [] && chunks[0] + [] == chunks[0] && chunks == [chunks[0]];
    } else {
      EverySplitIsCut(rest);
      CutFirst(chunks[0], Flatten(rest), LengthsOf(rest));
      assert chunks == [chunks[0]] + rest;
    }
  }

  lemma CutNothing(data: seq<byte>)
    ensures Cut(data, []) == [data]
  {
  }

  lemma CutFirst(first: seq<byte>, rest: seq<byte>, lengths: seq<nat>)
    ensures Cut(first + rest, [|first|] + lengths) == [first] + Cut(rest, lengths)
  {
    var data, all := first + rest, [|first|] + lengths;
    assert all[1..] == lengths && data[..|first|] == first && data[|first|..] == rest;
  }

  lemma {:induction false} AllOnChannel<M, P>(fs: seq<Frame<M, P>>, channel: uint16)
    requires forall i :: 0 <= i < |fs| ==> fs[i].channel == channel && !fs[i].payload.Heartbeat?
    ensures OnChannel(fs, channel) == fs && WithoutHeartbeats(fs) == fs
    decreases |fs|
  {
    if fs != [] {
      AllOnChannel(fs[1..], channel);
    }
  }

  /** What a receiver of the printed message does with it. */
  lemma MessageIsRead<M(!new), P(!new)>(c: Codec<M, P>, frameMax: nat, channel: uint16, args: M, props: P,
                                        body: seq<byte>, lengths: seq<nat>, stop: Status)
    requires 8 < frameMax < 0x8000_0000 && |body| < 0x1_0000_0000_0000_0000
    requires AllReadBack(c, MessageFrames(channel, args, props, body, frameMax))
    requires Join(Encodings(c, MessageFrames(channel, args, props, body, frameMax), frameMax)).error.None?
    ensures var frames := MessageFrames(channel, args, props, body, frameMax);
            var chunks := Cut(Join(Encodings(c, frames, frameMax)).bytes, lengths);
            && Parse(c, frameMax, Extend(Reader(false, []), Flatten(chunks))) == Parsed(frames, Reader(false, []), None)
            && Stream([], frames, channel) == frames
            && ReadFrom(frames[1..], stop) == Read(Success(Message(props, body)), |frames| - 1)
  {
    hide Parse, Join, AllReadBack, Encoding, ReadFrom, Fragments, ReadsBack, EncodersRespectRoom;
    var frames := MessageFrames(channel, args, props, body, frameMax);
    var data := Join(Encodings(c, frames, frameMax)).bytes;
    CutIsSplit(data, lengths);
    assert Extend(Reader(false, []), data) == Reader(false, data);
    PrintedIsParsed(c, frameMax, frames);
    AllOnChannel(frames, channel);
    var none: seq<Frame<M, P>> := [];
    assert OnChannel(none, channel) == [];
    ReassembleFragments(channel, args, props, body, frameMax, none, stop);
    assert frames[1..] + none == frames[1..];
  }

  lemma PrintedIsParsed<M(!new), P(!new)>(c: Codec<M, P>, frameMax: nat, sent: seq<Frame<M, P>>)
    requires frameMax < 0x8000_0000 && AllReadBack(c, sent) && Join(Encodings(c, sent, frameMax)).error.None?
    ensures Parse(c, frameMax, Reader(false, Join(Encodings(c, sent, frameMax)).bytes))
            == Parsed(sent, Reader(false, []), None)
  {
    StreamRoundTrip(c, frameMax, sent, frameMax);
  }

  /** A sender publishes a message, whatever the socket takes at a time, and its bytes reach a
      connection between two frames, in any chunks. */
  method PublishAndFeed<M(!new), P(!new)>(
      sender: Sender<M, P>, connection: Connection<M, P>, channel: uint16, args: M, props: P, body: seq<byte>,
      lengths: seq<nat>, ghost stop: Status)
    returns (sent: Option<Status>, received: seq<Frame<M, P>>)
    requires sender.Valid() && connection.Valid() && connection.Reading() == Reader(false, [])
    requires sender.codec == connection.codec && 20 <= sender.frameMax == connection.frameMax
    requires sender.outbound != connection.headerBuffer && sender.outbound != connection.inboundBuffer
    requires |body| < 0x1_0000_0000_0000_0000
    requires AllReadBack(sender.codec, MessageFrames(channel, args, props, body, sender.frameMax))
    modifies sender`wire, sender`events, sender`reports, sender`more, sender.outbound
    modifies connection, connection.headerBuffer, connection.inboundBuffer
    ensures var printed := Join(Encodings(sender.codec, MessageFrames(channel, args, props, body, sender.frameMax),
                                          sender.frameMax));
            && Progress(old(sender.wire), sender.wire, printed.bytes)
            && (sent.None? ==> sender.wire == old(sender.wire) + printed.bytes)
            && Explained(old(sender.Ahead()), sender.Ahead(), printed.error, sent)
            && (Clean(old(sender.Ahead())) && printed.error.None? && |printed.bytes| <= Grants(old(sender.events)) ==>
                  sent.None?)
    ensures sent.None? ==>
              && connection.Valid() && connection.Reading() == Reader(false, [])
              && received == MessageFrames(channel, args, props, body, sender.frameMax)
              && Stream([], received, channel) == received
              && ReadFrom(received[1..], stop) == Read(Success(Message(props, body)), |received| - 1)
  {
    hide Parse, Join, AllReadBack, Encodings, MessageFrames, ReadFrom, Stream, Cut, Flatten, Fragments, AnnouncesMore;
    hide Clean, Fine, Troubled, Grants;
    var start := sender.wire;
    received := [];
    sent := sender.BasicPublish(channel, args, props, body);
    if sent.None? {
      MessageHasFrames<M, P>(channel, args, props, body, sender.frameMax);
      MessageIsRead(sender.codec, sender.frameMax, channel, args, props, body, lengths, stop);
      var error;
      received, error := connection.FeedAll(Cut(sender.wire[|start|..], lengths));
    }
  }

  /** The same, and the frames are read from an inbox.  Whenever publishing succeeds, the message is read
      as it was. */
  method PublishAndRead<M(!new), P(!new)>(
      sender: Sender<M, P>, connection: Connection<M, P>, channel: uint16, args: M, props: P, body: seq<byte>,
      lengths: seq<nat>, stop: Status)
    returns (sent: Option<Status>, read: Result<P, ReadError<M, P>>, got: array<byte>)
    requires sender.Valid() && connection.Valid() && connection.Reading() == Reader(false, [])
    requires sender.codec == connection.codec && 20 <= sender.frameMax == connection.frameMax
    requires sender.outbound != connection.headerBuffer && sender.outbound != connection.inboundBuffer
    requires |body| < 0x1_0000_0000_0000_0000
    requires AllReadBack(sender.codec, MessageFrames(channel, args, props, body, sender.frameMax))
    modifies sender`wire, sender`events, sender`reports, sender`more, sender.outbound
    modifies connection, connection.headerBuffer, connection.inboundBuffer
    ensures var printed := Join(Encodings(sender.codec, MessageFrames(channel, args, props, body, sender.frameMax),
                                          sender.frameMax));
            && Progress(old(sender.wire), sender.wire, printed.bytes)
            && (sent.None? ==> sender.wire == old(sender.wire) + printed.bytes)
            && Explained(old(sender.Ahead()), sender.Ahead(), printed.error, sent)
            && (Clean(old(sender.Ahead())) && printed.error.None? && |printed.bytes| <= Grants(old(sender.events)) ==>
                  sent.None?)
    ensures sent.None? ==> read == Success(props) && got[..] == body
    ensures sent.None? ==> connection.Valid() && connection.Reading() == Reader(false, [])
  {
    hide Parse, Join, AllReadBack, Encodings, MessageFrames, ReadFrom, Stream, Progress, Fragments;
    hide Clean, Explained, Grants;
    var received;
    read, got := Failure(LibraryException(stop)), new byte[0];
    sent, received := PublishAndFeed(sender, connection, channel, args, props, body, lengths, stop);
    if sent.None? {
      MessageHasFrames<M, P>(channel, args, props, body, sender.frameMax);
      var inbox := new Inbox(received, stop);
      var _ := inbox.Next(channel);
      read, got := inbox.ReadMessage(channel);
    }
  }

  lemma MessageHasFrames<M, P>(channel: uint16, args: M, props: P, body: seq<byte>, frameMax: nat)
    requires 8 < frameMax && |body| < 0x1_0000_0000_0000_0000
    ensures var frames: seq<Frame<M, P>> := MessageFrames(channel, args, props, body, frameMax); frames != []
  {
  }
}

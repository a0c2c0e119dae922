/** The sending half of a connection: printing a frame into the outbound buffer, pushing it through
    a socket that may take it in pieces, and cutting a message body into frames. */
module Publishing {
  import opened Options
  import opened Arithmetic
  import opened Wire
  import opened Frames

  const BASIC_PUBLISH_METHOD: uint32 := 0x3C0028
  const BASIC_CLASS: uint16 := 60

  // ---------- what is to be sent ----------

  /** A body cut into pieces of `usable` bytes and a shorter rest (section 4.2.6). */
  function Fragments(body: seq<byte>, usable: nat): seq<seq<byte>>
    requires 0 < usable
  {
    if body == [] then []
    else if usable <= |body| then [body[..usable]] + Fragments(body[usable..], usable)
    else [body]
  }

  function BodyFrames<M, P>(channel: uint16, fragments: seq<seq<byte>>): (fs: seq<Frame<M, P>>)
    ensures |fs| == |fragments|
    ensures forall i :: 0 <= i < |fs| ==> fs[i] == Frame(channel, Body(fragments[i]))
  {
    seq(|fragments|, i requires 0 <= i < |fragments| => Frame(channel, Body(fragments[i])))
  }

  function MessageFrames<M, P>(channel: uint16, args: M, props: P, body: seq<byte>, frameMax: nat): seq<Frame<M, P>>
    requires 8 < frameMax && |body| < 0x1_0000_0000_0000_0000
  {
    [Frame(channel, Method(BASIC_PUBLISH_METHOD, args)), Frame(channel, Header(BASIC_CLASS, |body|, props))]
    + BodyFrames(channel, Fragments(body, frameMax - 8))
  }

  lemma FragmentsNext(body: seq<byte>, usable: nat)
    requires 0 < usable <= |body|
    ensures Fragments(body, usable) == [body[..usable]] + Fragments(body[usable..], usable)
    ensures Fragments(body, usable)[1..] == Fragments(body[usable..], usable)
  {
  }

  lemma {:induction false} FragmentsJoin(body: seq<byte>, usable: nat)
    requires 0 < usable
    ensures Flatten(Fragments(body, usable)) == body
    decreases |body|
  {
    if usable <= |body| {
      FragmentsJoin(body[usable..], usable);
      FragmentsNext(body, usable);
    } else if body != [] {
      assert [body][1..] == [];
    }
  }

  lemma {:induction false} FragmentSize(body: seq<byte>, usable: nat, i: nat)
    requires 0 < usable && i < |Fragments(body, usable)|
    ensures var fs := Fragments(body, usable);
            0 < |fs[i]| <= usable && (i < |fs| - 1 ==> |fs[i]| == usable)
    decreases |body|
  {
    if usable <= |body| {
      FragmentsNext(body, usable);
      if 0 < i {
        FragmentSize(body[usable..], usable, i - 1);
      }
    }
  }

  lemma {:induction false} LastFragment(body: seq<byte>, usable: nat)
    requires 0 < usable && body != []
    ensures var fs := Fragments(body, usable);
            fs != [] && (|fs[|fs| - 1]| == usable <==> |body| % usable == 0)
    decreases |body|
  {
    if usable <= |body| {
      FragmentsNext(body, usable);
      ModShift(|body| - usable, usable, 1);
      if usable < |body| {
        LastFragment(body[usable..], usable);
      }
    }
  }

  /** The pieces make up the body; each is non-empty and within the limit, only the last is shorter,
      and it is shorter exactly when the body is not a multiple of the limit. */
  lemma FragmentsPartition(body: seq<byte>, usable: nat)
    requires 0 < usable
    ensures var fs := Fragments(body, usable);
            && Flatten(fs) == body
            && (fs == [] <==> body == [])
            && (forall i :: 0 <= i < |fs| ==> 0 < |fs[i]| <= usable)
            && (forall i :: 0 <= i < |fs| - 1 ==> |fs[i]| == usable)
            && (fs != [] ==> (|fs[|fs| - 1]| == usable <==> |body| % usable == 0))
  {
    FragmentsJoin(body, usable);
    forall i | 0 <= i < |Fragments(body, usable)|
      ensures var fs := Fragments(body, usable); 0 < |fs[i]| <= usable && (i < |fs| - 1 ==> |fs[i]| == usable)
    {
      FragmentSize(body, usable, i);
    }
    if body != [] {
      LastFragment(body, usable);
    }
  }

  lemma {:induction false} JoinAppend(rs: seq<Result<seq<byte>, Status>>, ss: seq<Result<seq<byte>, Status>>)
    ensures var p, q := Join(rs), Join(ss);
            Join(rs + ss) == if p.error.Some? then p else Printed(p.bytes + q.bytes, q.error)
    decreases |rs|
  {
    if rs == [] {
      assert rs + ss == ss;
    } else {
      assert (rs + ss)[0] == rs[0] && (rs + ss)[1..] == rs[1..] + ss;
      JoinAppend(rs[1..], ss);
      if rs[0].Success? {
        var b, p, q := rs[0].value, Join(rs[1..]).bytes, Join(ss).bytes;
        assert b + (p + q) == (b + p) + q;
      }
    }
  }

  lemma JoinNext(rs: seq<Result<seq<byte>, Status>>, k: nat)
    requires k < |rs| && Join(rs[..k]).error.None?
    ensures match rs[k]
            case Success(b) => Join(rs[..k + 1]) == Printed(Join(rs[..k]).bytes + b, None)
            case Failure(e) => Join(rs) == Printed(Join(rs[..k]).bytes, Some(e))
  {
    hide Join;
    var sent, next := rs[..k], [rs[k]];
    assert rs[..k + 1] == sent + next && rs[k..] == next + rs[k + 1..] && rs == sent + rs[k..];
    JoinFirst(rs[k], []);
    JoinFirst(rs[k], rs[k + 1..]);
    assert next + [] == next;
    JoinAppend(sent, next);
    JoinAppend(sent, rs[k..]);
    assert Join(sent).bytes + [] == Join(sent).bytes;
  }

  lemma JoinFirst(r: Result<seq<byte>, Status>, rest: seq<Result<seq<byte>, Status>>)
    ensures match r
            case Success(b) => Join([r] + rest) == Printed(b + Join(rest).bytes, Join(rest).error)
            case Failure(e) => Join([r] + rest) == Printed([], Some(e))
    ensures r.Success? && rest == [] ==> Join([r] + rest) == Printed(r.value, None)
  {
    assert ([r] + rest)[1..] == rest;
  }

  lemma JoinPrefix(rs: seq<Result<seq<byte>, Status>>, k: nat)
    requires k <= |rs|
    ensures Join(rs[..k]).bytes <= Join(rs).bytes
    ensures rs[..|rs|] == rs
  {
    hide Join;
    assert rs == rs[..k] + rs[k..];
    JoinAppend(rs[..k], rs[k..]);
  }

  function Pieces(rs: seq<Result<seq<byte>, Status>>): (pieces: seq<seq<byte>>)
    requires forall i :: 0 <= i < |rs| ==> rs[i].Success?
    ensures |pieces| == |rs| && forall i :: 0 <= i < |rs| ==> pieces[i] == rs[i].value
  {
    seq(|rs|, i requires 0 <= i < |rs| => rs[i].value)
  }

  lemma {:induction false} JoinedPieces(rs: seq<Result<seq<byte>, Status>>)
    requires Join(rs).error.None?
    ensures (forall i :: 0 <= i < |rs| ==> rs[i].Success?) && Join(rs).bytes == Flatten(Pieces(rs))
  {
    if rs != [] {
      JoinedPieces(rs[1..]);
      assert forall i :: 1 <= i < |rs| ==> rs[i] == rs[1..][i - 1];
      assert Pieces(rs)[1..] == Pieces(rs[1..]);
    }
  }

  /** A message that can be printed is this on the wire: a basic.publish method frame, a header frame
      of class 60 that announces the size of the body, and a frame for each piece of the body, each
      with its layout. */
  lemma MessageLayout<M, P>(c: Codec<M, P>, channel: uint16, args: M, props: P, body: seq<byte>, frameMax: nat)
    returns (pieces: seq<seq<byte>>)
    requires 20 <= frameMax && |body| < 0x1_0000_0000_0000_0000
    requires Join(Encodings(c, MessageFrames(channel, args, props, body, frameMax), frameMax)).error.None?
    ensures Join(Encodings(c, MessageFrames(channel, args, props, body, frameMax), frameMax)).bytes == Flatten(pieces)
    ensures |pieces| == 2 + |Fragments(body, frameMax - 8)|
    ensures IsPrinted(c, Frame(channel, Method(0x3C_0028, args)), frameMax, pieces[0])
    ensures IsPrinted(c, Frame(channel, Header(60, |body|, props)), frameMax, pieces[1])
    ensures forall k :: 2 <= k < |pieces| ==>
              IsPrinted(c, Frame(channel, Body(Fragments(body, frameMax - 8)[k - 2])), frameMax, pieces[k])
  {
    hide Join, Fragments, IsPrinted, Encode, Flatten, FitsBuffer;
    var fs := MessageFrames<M, P>(channel, args, props, body, frameMax);
    var rs := Encodings(c, fs, frameMax);
    JoinedPieces(rs);
    pieces := Pieces(rs);
    forall i | 0 <= i < |fs|
      ensures IsPrinted(c, fs[i], frameMax, pieces[i])
    {
      assert rs[i] == Encoding(c, fs[i], frameMax);
      PrintedLayout(c, fs[i], frameMax);
    }
    assert fs[0] == Frame(channel, Method(0x3C_0028, args)) && fs[1] == Frame(channel, Header(60, |body|, props));
    forall k | 2 <= k < |pieces|
      ensures IsPrinted(c, Frame(channel, Body(Fragments(body, frameMax - 8)[k - 2])), frameMax, pieces[k])
    {
      assert fs[k] == Frame(channel, Body(Fragments(body, frameMax - 8)[k - 2]));
    }
  }

  /** What is on the wire is what was there and a prefix of what is to be sent. */
  predicate Progress(start: seq<byte>, wire: seq<byte>, data: seq<byte>) {
    start <= wire <= start + data
  }

  lemma NothingSent(printed: seq<Result<seq<byte>, Status>>)
    ensures Join(printed[..0]) == Printed([], None)
  {
  }

  lemma ProgressStarts(start: seq<byte>, data: seq<byte>)
    ensures Progress(start, start, data)
  {
  }

  lemma ProgressGrows(start: seq<byte>, wire: seq<byte>, sent: seq<byte>, next: seq<byte>, data: seq<byte>)
    requires Progress(start + sent, wire, next) && sent + next <= data
    ensures Progress(start, wire, data)
  {
    assert (start + sent) + next == start + (sent + next) <= start + data;
  }

  lemma PrefixOfWire(start: seq<byte>, data: seq<byte>, n: nat)
    requires n <= |data|
    ensures Progress(start, start + data[..n], data)
  {
  }

  lemma NothingFragmented(usable: nat)
    requires 0 < usable
    ensures Fragments([], usable) == []
  {
  }

  lemma NextFragment(body: seq<byte>, usable: nat, offset: nat, k: nat)
    requires 0 < usable && offset < |body|
    requires k <= |Fragments(body, usable)| && Fragments(body, usable)[k..] == Fragments(body[offset..], usable)
    ensures var pieces := Fragments(body, usable);
            var length := if usable <= |body| - offset then usable else |body| - offset;
            && k < |pieces| && pieces[k] == body[offset..offset + length]
            && pieces[k + 1..] == Fragments(body[offset + length..], usable)
  {
    var pieces := Fragments(body, usable);
    var rest := pieces[k..];
    assert pieces[k + 1..] == rest[1..] && pieces[k] == rest[0];
    if usable <= |body| - offset {
      assert body[offset..][usable..] == body[offset + usable..];
    } else {
      assert body[offset + (|body| - offset)..] == [];
    }
  }

  // ---------- sending it ----------

  /** One answer of the non-blocking socket: it takes some bytes, or it would block and the poll that
      follows finds it ready, times out or fails. */
  datatype SocketEvent = Takes(n: nat) | Ready | TimedOut | Broken(status: Status)

  /** What the clock or the receiving side reports: all is well, a deadline has passed, or an error. */
  datatype Report = Well | Late | Failed(status: Status)

  /** All that is still going to be answered.  Behind the last report all is well. */
  datatype Future = Future(events: seq<SocketEvent>, reports: seq<Report>)

  /** From `a` on things went on to `b` without an error. */
  ghost predicate Fine(a: Future, b: Future) {
    && |b.events| <= |a.events| && |b.reports| <= |a.reports|
    && var used, heard := |a.events| - |b.events|, |a.reports| - |b.reports|;
       && a.events[used..] == b.events && a.reports[heard..] == b.reports
       && (forall i :: 0 <= i < used ==> !a.events[i].Broken?)
       && forall i :: 0 <= i < heard ==> !a.reports[i].Failed?
  }

  /** The very next answer is the error `e`: of the socket, which is cut off with a socket error when
      its answers are used up, or of a report; a missed heartbeat has a status of its own. */
  ghost predicate Fails(a: Future, b: Future, e: Status) {
    || (a == b && a.events == [] && e == SocketError)
    || (a == b.(events := [Broken(e)] + b.events))
    || (a == b.(reports := [Failed(e)] + b.reports))
    || (a == b.(reports := [Late] + b.reports) && e == HeartbeatTimeout)
  }

  /** All went well up to the answer that is the error `e`. */
  ghost predicate Troubled(a: Future, b: Future, e: Status) {
    exists m :: Fine(a, m) && Fails(m, b, e)
  }

  /** The result `r` is what the answers used say, unless printing fails, with `error`. */
  ghost predicate Explained(a: Future, b: Future, error: Option<Status>, r: Option<Status>) {
    match r
    case None => Fine(a, b)
    case Some(e) => Troubled(a, b, e) || (Fine(a, b) && error == Some(e))
  }

  /** Neither an error nor a missed deadline is ahead. */
  ghost predicate Clean(a: Future) {
    && (forall i :: 0 <= i < |a.events| ==> !a.events[i].Broken?)
    && forall i :: 0 <= i < |a.reports| ==> a.reports[i].Well?
  }

  /** How often the socket is going to take something. */
  ghost function Grants(events: seq<SocketEvent>): nat {
    if events == [] then 0
    else (if events[0].Takes? && 0 < events[0].n then 1 else 0) + Grants(events[1..])
  }

  /** How often the poll is going to time out. */
  ghost function Waits(events: seq<SocketEvent>): nat {
    if events == [] then 0 else (if events[0].TimedOut? then 1 else 0) + Waits(events[1..])
  }

  /** So many reports have been listened to, if there were as many. */
  ghost predicate Heard(count: int, before: seq<Report>, after: seq<Report>) {
    |after| == if count <= |before| then |before| - count else 0
  }

  lemma NothingGranted()
    ensures Grants([]) == 0
  {
  }

  /** The first `taken` bytes of the data are on the wire, behind what was there before. */
  ghost predicate Taken(start: seq<byte>, wire: seq<byte>, data: seq<byte>, taken: nat) {
    taken <= |data| && wire == start + data[..taken]
  }

  lemma NothingTaken(start: seq<byte>, data: seq<byte>)
    ensures Taken(start, start, data, 0)
  {
  }

  lemma MoreTaken(start: seq<byte>, wire: seq<byte>, data: seq<byte>, taken: nat, step: nat)
    requires Taken(start, wire, data, taken) && taken + step <= |data|
    ensures Taken(start, wire + data[taken..taken + step], data, taken + step)
  {
  }

  lemma TakenInTurn(start: seq<byte>, halfway: seq<byte>, wire: seq<byte>, data: seq<byte>, taken: nat, step: nat)
    requires Taken(start, halfway, data, taken) && Taken(halfway, wire, data[taken..], step)
    ensures Taken(start, wire, data, taken + step) && data[taken..][step..] == data[taken + step..]
  {
    assert data[taken..][..step] == data[taken..taken + step];
    MoreTaken(start, halfway, data, taken, step);
  }

  lemma ExplainedAs(a: Future, b: Future, error: Option<Status>, r: Option<Status>)
    requires Explained(a, b, None, r)
    ensures Explained(a, b, error, r)
  {
  }

  lemma FineTrans(a: Future, b: Future, c: Future)
    requires Fine(a, b) && Fine(b, c)
    ensures Fine(a, c)
  {
    var used, heard := |a.events| - |b.events|, |a.reports| - |b.reports|;
    assert a.events[used..][|b.events| - |c.events|..] == a.events[|a.events| - |c.events|..];
    assert a.reports[heard..][|b.reports| - |c.reports|..] == a.reports[|a.reports| - |c.reports|..];
    forall i | 0 <= i < |a.events| - |c.events| ensures !a.events[i].Broken? {
      if used <= i {
        assert a.events[i] == b.events[i - used];
      }
    }
    forall i | 0 <= i < |a.reports| - |c.reports| ensures !a.reports[i].Failed? {
      if heard <= i {
        assert a.reports[i] == b.reports[i - heard];
      }
    }
  }

  lemma FineRefl(a: Future)
    ensures Fine(a, a)
  {
  }

  lemma NothingAhead(a: Future, b: Future)
    requires Fine(a, b) && b.events == []
    ensures Troubled(a, b, SocketError)
  {
    hide Fine;
    assert Fails(b, b, SocketError);
  }

  lemma NextIsFine(a: Future)
    requires a.events != [] && !a.events[0].Broken?
    ensures Fine(a, a.(events := a.events[1..]))
  {
  }

  lemma NextFails(a: Future)
    requires a.events != [] && a.events[0].Broken?
    ensures Fails(a, a.(events := a.events[1..]), a.events[0].status)
  {
    assert a.events == [a.events[0]] + a.events[1..];
  }

  lemma GrantsNext(events: seq<SocketEvent>)
    requires events != []
    ensures Grants(events) <= Grants(events[1..]) + if events[0].Takes? && 0 < events[0].n then 1 else 0
    ensures Waits(events) == Waits(events[1..]) + if events[0].TimedOut? then 1 else 0
  {
  }

  /** One more answer of the socket. */
  lemma EventUsed(a: Future, b: Future)
    requires Fine(a, b) && b.events != []
    ensures var event, c := b.events[0], b.(events := b.events[1..]);
            && (!event.Broken? ==> Fine(a, c))
            && (event.Broken? ==> Troubled(a, c, event.status))
            && Grants(b.events) <= Grants(c.events) + (if event.Takes? && 0 < event.n then 1 else 0)
            && Waits(b.events) == Waits(c.events) + if event.TimedOut? then 1 else 0
  {
    hide Fine, Fails, Grants, Waits;
    GrantsNext(b.events);
    if b.events[0].Broken? {
      NextFails(b);
    } else {
      NextIsFine(b);
      FineTrans(a, b, b.(events := b.events[1..]));
    }
  }

  lemma ReportUsed(a: Future)
    requires a.reports != []
    ensures var b := a.(reports := a.reports[1..]);
            match a.reports[0]
            case Well => Fine(a, b)
            case Late => Fine(a, b) && Fails(a, b, HeartbeatTimeout)
            case Failed(e) => Fails(a, b, e)
  {
    assert a.reports == [a.reports[0]] + a.reports[1..];
  }

  lemma TroubledAfter(a: Future, b: Future, c: Future, e: Status)
    requires Fine(a, b) && Troubled(b, c, e)
    ensures Troubled(a, c, e)
  {
    hide Fine, Fails;
    var m :| Fine(b, m) && Fails(m, c, e);
    FineTrans(a, b, m);
  }

  lemma ExplainedAfter(a: Future, b: Future, c: Future, error: Option<Status>, r: Option<Status>)
    requires Fine(a, b) && Explained(b, c, error, r)
    ensures Explained(a, c, error, r) && (Clean(a) ==> Clean(b))
  {
    hide Fine, Troubled, Clean;
    if Clean(a) {
      StaysClean(a, b);
    }
    match r
    case None => FineTrans(a, b, c);
    case Some(e) =>
      if Troubled(b, c, e) {
        TroubledAfter(a, b, c, e);
      } else {
        FineTrans(a, b, c);
      }
  }

  lemma StaysClean(a: Future, b: Future)
    requires Clean(a) && Fine(a, b)
    ensures Clean(b)
  {
    var used, heard := |a.events| - |b.events|, |a.reports| - |b.reports|;
    forall i | 0 <= i < |b.events| ensures !b.events[i].Broken? {
      assert b.events[i] == a.events[used + i];
    }
    forall i | 0 <= i < |b.reports| ensures b.reports[i].Well? {
      assert b.reports[i] == a.reports[heard + i];
    }
  }

  /** When nothing bad is ahead the only trouble is that there are no more answers. */
  lemma CleanRunsOut(a: Future, b: Future, r: Option<Status>)
    requires Clean(a) && Explained(a, b, None, r) && r.Some?
    ensures b.events == []
  {
    hide Fine, Clean;
    var m :| Fine(a, m) && Fails(m, b, r.value);
    StaysClean(a, m);
    CleanFailsEmpty(m, b, r.value);
  }

  lemma CleanFailsEmpty(a: Future, b: Future, e: Status)
    requires Clean(a) && Fails(a, b, e)
    ensures b.events == []
  {
    var broken, failed, late := [Broken(e)] + b.events, [Failed(e)] + b.reports, [Late] + b.reports;
    assert broken[0].Broken? && failed[0].Failed? && late[0].Late?;
  }

  method WriteBytes(buffer: array<byte>, offset: nat, data: seq<byte>)
    requires offset + |data| <= buffer.Length
    modifies buffer
    ensures forall i :: 0 <= i < buffer.Length ==>
              buffer[i] == if offset <= i < offset + |data| then data[i - offset] else old(buffer[i])
  {
    forall i | 0 <= i < |data| {
      buffer[offset + i] := data[i];
    }
  }

  class Sender<M(!new), P(!new)> {
    const codec: Codec<M, P>
    const frameMax: nat
    const outbound: array<byte>
    /** All bytes the socket has taken so far, and for each completed frame whether it was announced
        as being followed by more. */
    var wire: seq<byte>
    var more: seq<bool>
    /** What the socket is going to answer; a call that outlives it is stuck and is cut off.  What the
        clock and the receiving side are going to report. */
    var events: seq<SocketEvent>
    var reports: seq<Report>

    ghost predicate Valid() {
      outbound.Length == frameMax < 0x8000_0000 && EncodersRespectRoom(codec)
    }

    ghost function Ahead(): Future
      reads this`events, this`reports
    {
      Future(events, reports)
    }

    constructor (codec: Codec<M, P>, frameMax: nat, events: seq<SocketEvent>, reports: seq<Report>)
      requires frameMax < 0x8000_0000 && EncodersRespectRoom(codec)
      ensures Valid() && wire == [] && more == [] && fresh(outbound)
      ensures this.codec == codec && this.frameMax == frameMax && Ahead() == Future(events, reports)
    {
      this.codec, this.frameMax, this.events, this.reports := codec, frameMax, events, reports;
      outbound := new byte[frameMax];
      wire, more := [], [];
    }

    /** Puts header and footer around a payload in the outbound buffer, the length after the payload. */
    method EncloseInPlace(code: byte, channel: uint16, payload: seq<byte>)
      requires Valid() && |payload| + 8 <= frameMax
      modifies outbound
      ensures outbound[..|payload| + 8] == Enclose(code, channel, payload)
    {
      outbound[0] := code;
      WriteBytes(outbound, 1, E16(channel));
      WriteBytes(outbound, HEADER_SIZE, payload);
      WriteBytes(outbound, 3, E32(|payload|));
      outbound[HEADER_SIZE + |payload|] := FRAME_END;
      assert outbound[3..7] == E32(|payload|) && outbound[7..7 + |payload|] == payload;
      assert outbound[1..3] == E16(channel) && |payload| % 0x1_0000_0000 == |payload|;
    }

    /** amqp_frame_to_bytes: prints into the outbound buffer. */
    method FrameToBytes(frame: Frame<M, P>) returns (r: Result<nat, Status>)
      requires Valid() && FitsBuffer(frame.payload, frameMax)
      modifies outbound
      ensures match Encode(codec, frame, frameMax)
              case Failure(e) => r == Failure(e)
              case Success(b) => r == Success(|b|) && |b| <= frameMax && outbound[..|b|] == b
      ensures r.Success? ==> r.value <= frameMax && IsPrinted(codec, frame, frameMax, outbound[..r.value])
    {
      hide IsPrinted;
      if Encode(codec, frame, frameMax).Success? {
        PrintedLayout(codec, frame, frameMax);
      }
      var payload: seq<byte> := [];
      match frame.payload {
        case Body(fragment) =>
          payload := fragment;
        case Method(id, args) =>
          match codec.encodeMethod(id, args, frameMax - 12) {
            case Failure(e) => return Failure(e);
            case Success(b) => payload := E32(id) + b;
          }
        case Header(id, size, props) =>
          match codec.encodeProps(id, props, frameMax - 20) {
            case Failure(e) => return Failure(e);
            case Success(b) => payload := E16(id) + E16(0) + E64(size) + b;
          }
        case Heartbeat =>
        case ProtocolHeader(_, _, _, _) => return Failure(InvalidParameter);
      }
      EncloseInPlace(TypeCode(frame.payload), frame.channel, payload);
      return Success(|payload| + HEADER_SIZE + FOOTER_SIZE);
    }

    /** amqp_try_send: pushes until all is taken, the poll times out (then the count so far) or an
        error occurs. */
    method TrySend(data: seq<byte>) returns (r: Result<nat, Status>, ghost taken: nat)
      requires Valid() && data != []
      modifies this`wire, this`events
      ensures |events| < |old(events)| || (events == [] && r == Failure(SocketError))
      ensures taken <= |data| && Taken(old(wire), wire, data, taken)
      ensures Grants(old(events)) <= Grants(events) + taken
      ensures match r
              case Success(n) =>
                && taken == n && Fine(old(Ahead()), Ahead())
                && Waits(old(events)) == Waits(events) + if n == |data| then 0 else 1
              case Failure(e) => taken < |data| && Troubled(old(Ahead()), Ahead(), e)
    {
      hide Fine, Troubled, Grants, Waits, Taken, Valid, EncodersRespectRoom;
      var left := |data|;
      taken := 0;
      NothingTaken(wire, data);
      FineRefl(Ahead());
      while true
        invariant 0 < left && taken + left == |data| && Taken(old(wire), wire, data, taken)
        invariant |events| < |old(events)| || events == old(events)
        invariant Grants(old(events)) <= Grants(events) + taken && Fine(old(Ahead()), Ahead())
        invariant Waits(old(events)) == Waits(events)
        decreases |events|
      {
        if events == [] {
          NothingAhead(old(Ahead()), Ahead());
          return Failure(SocketError), taken;
        }
        EventUsed(old(Ahead()), Ahead());
        var event := events[0];
        events := events[1..];
        match event {
          case Takes(n) =>
            var step := if n < left then n else left;
            MoreTaken(old(wire), wire, data, taken, step);
            wire := wire + data[|data| - left..|data| - left + step];
            left, taken := left - step, taken + step;
            if left == 0 {
              return Success(|data|), taken;
            }
          case Ready =>
          case TimedOut =>
            return Success(|data| - left), taken;
          case Broken(status) =>
            return Failure(status), taken;
        }
      }
    }

    /** The next report of the clock or of the receiving side. */
    method NextReport() returns (report: Report)
      modifies this`reports
      ensures if old(reports) == [] then reports == [] && report == Well
              else reports == old(reports)[1..] && report == old(reports)[0]
    {
      report := Well;
      if reports != [] {
        report, reports := reports[0], reports[1..];
      }
    }

    /** amqp_try_recv, with the status its callers give to a time-out. */
    method TryRecv() returns (r: Option<Status>)
      modifies this`reports
      ensures Heard(1, old(reports), reports)
      ensures r == if old(reports) == [] then None else
                     match old(reports)[0]
                     case Well => None
                     case Late => Some(HeartbeatTimeout)
                     case Failed(status) => Some(status)
      ensures Explained(old(Ahead()), Ahead(), None, r) && (Clean(old(Ahead())) ==> r.None?)
    {
      hide Fine, Fails;
      ghost var before := Ahead();
      FineRefl(before);
      if reports != [] {
        ReportUsed(before);
      }
      var report := NextReport();
      match report
      case Well => return None;
      case Late => return Some(HeartbeatTimeout);
      case Failed(status) => return Some(status);
    }

    /** Setting the time of the next heartbeat, which only an error of the clock prevents. */
    method SetDeadline() returns (r: Option<Status>)
      modifies this`reports
      ensures r.Some? <==> old(reports) != [] && old(reports)[0].Failed?
      ensures Explained(old(Ahead()), Ahead(), None, r) && (Clean(old(Ahead())) ==> r.None?)
    {
      hide Fine, Fails;
      ghost var before := Ahead();
      FineRefl(before);
      if reports != [] {
        ReportUsed(before);
      }
      var report := NextReport();
      return if report.Failed? then Some(report.status) else None;
    }

    /** The check at the beginning of amqp_basic_publish: has the server been silent for too long? */
    method CheckHeartbeat() returns (r: Option<Status>)
      modifies this`reports
      ensures old(reports) != [] && old(reports)[0].Late? && 1 < |old(reports)| ==> (r.None? <==> old(reports)[1].Well?)
      ensures Explained(old(Ahead()), Ahead(), None, r) && (Clean(old(Ahead())) ==> r.None?)
    {
      hide Fine, Fails;
      ghost var before := Ahead();
      FineRefl(before);
      if reports != [] {
        ReportUsed(before);
      }
      var report := NextReport();
      match report
      case Well => return None;
      case Late =>
        ghost var after := Ahead();
        r := TryRecv();
        ExplainedAfter(before, after, Ahead(), None, r);
      case Failed(status) => return Some(status);
    }

    /** The send loop: after a partial send something is received and the rest is sent. */
    method SendBytes(data: seq<byte>) returns (r: Option<Status>, ghost taken: nat)
      requires Valid() && data != []
      modifies this`wire, this`events, this`reports
      ensures taken <= |data| && Taken(old(wire), wire, data, taken) && (r.None? <==> taken == |data|)
      ensures Grants(old(events)) <= Grants(events) + taken && Explained(old(Ahead()), Ahead(), None, r)
      ensures r.None? ==> Heard(Waits(old(events)) - Waits(events), old(reports), reports)
    {
      hide Fine, Troubled, Grants, Waits, Clean, Taken, Valid, EncodersRespectRoom;
      var left := data;
      taken := 0;
      NothingTaken(wire, data);
      FineRefl(Ahead());
      while true
        invariant taken + |left| == |data| && left == data[taken..] && left != []
        invariant Taken(old(wire), wire, data, taken)
        invariant Grants(old(events)) <= Grants(events) + taken && Fine(old(Ahead()), Ahead())
        invariant Heard(Waits(old(events)) - Waits(events), old(reports), reports)
        decreases |events|
      {
        ghost var halfway, before := wire, Ahead();
        var sent, step := TrySend(left);
        TakenInTurn(old(wire), halfway, wire, data, taken, step);
        taken := taken + step;
        if sent.Failure? {
          TroubledAfter(old(Ahead()), before, Ahead(), sent.error);
          return Some(sent.error), taken;
        }
        FineTrans(old(Ahead()), before, Ahead());
        if sent.value == |left| {
          return None, taken;
        }
        before := Ahead();
        var received := TryRecv();
        ExplainedAfter(old(Ahead()), before, Ahead(), None, received);
        if received.Some? {
          return received, taken;
        }
        left := left[sent.value..];
      }
    }

    /** amqp_send_frame_inner: the frame is printed once and all of it goes out, or an error is returned. */
    method SendFrame(frame: Frame<M, P>, moreFollows: bool) returns (r: Option<Status>)
      requires Valid() && FitsBuffer(frame.payload, frameMax)
      modifies this`wire, this`events, this`reports, this`more, outbound
      ensures match Encoding(codec, frame, frameMax)
              case Failure(e) => r == Some(e) && wire == old(wire) && Ahead() == old(Ahead())
              case Success(b) =>
                && Progress(old(wire), wire, b)
                && (r.None? ==> wire == old(wire) + b && more == old(more) + [moreFollows])
                && Explained(old(Ahead()), Ahead(), None, r)
                && (Clean(old(Ahead())) && r.Some? ==> |wire| < |old(wire)| + |b|)
      ensures Grants(old(events)) + |old(wire)| <= Grants(events) + |wire|
    {
      hide Fine, Troubled, Clean, Grants, IsPrinted;
      var encoded := FrameToBytes(frame);
      if encoded.Failure? {
        return Some(encoded.error);
      }
      var data := outbound[..encoded.value];
      ghost var taken;
      r, taken := SendBytes(data);
      PrefixOfWire(old(wire), data, taken);
      if r.Some? {
        return;
      }
      assert data[..taken] == data;
      more := more + [moreFollows];
      ghost var sent := Ahead();
      if Clean(old(Ahead())) {
        StaysClean(old(Ahead()), sent);
      }
      r := SetDeadline();
      ExplainedAfter(old(Ahead()), sent, Ahead(), None, r);
    }

    /** The first `k` printed frames are on the wire, entirely and in order, behind what was there
        at `start`. */
    ghost predicate Sent(start: seq<byte>, printed: seq<Result<seq<byte>, Status>>, k: nat)
      requires k <= |printed|
      reads this
    {
      Join(printed[..k]).error.None? && wire == start + Join(printed[..k]).bytes
    }

    lemma SentIsProgress(start: seq<byte>, printed: seq<Result<seq<byte>, Status>>, k: nat)
      requires k <= |printed| && Sent(start, printed, k)
      ensures Progress(start, wire, Join(printed).bytes)
    {
      hide Join;
      JoinPrefix(printed, k);
    }

    /** The answers have run out before all of `data` is on the wire. */
    ghost predicate CutOff(start: seq<byte>, data: seq<byte>)
      reads this`wire, this`events
    {
      events == [] && |wire| < |start| + |data|
    }

    /** Sends the frame that is number `k` of a message. */
    method SendNext(frame: Frame<M, P>, moreFollows: bool,
                    ghost start: seq<byte>, ghost printed: seq<Result<seq<byte>, Status>>, ghost k: nat)
      returns (r: Option<Status>)
      requires Valid() && FitsBuffer(frame.payload, frameMax)
      requires k < |printed| && printed[k] == Encoding(codec, frame, frameMax) && Sent(start, printed, k)
      modifies this`wire, this`events, this`reports, this`more, outbound
      ensures Progress(start, wire, Join(printed).bytes)
      ensures r.None? ==> Sent(start, printed, k + 1) && more == old(more) + [moreFollows]
      ensures Explained(old(Ahead()), Ahead(), Join(printed).error, r)
      ensures Clean(old(Ahead())) && Join(printed).error.None? && r.Some? ==> CutOff(start, Join(printed).bytes)
      ensures Grants(old(events)) + |old(wire)| <= Grants(events) + |wire|
    {
      hide Join, Progress, Encoding, Fine, Troubled, Clean, Grants;
      ghost var sent := Join(printed[..k]).bytes;
      SentIsProgress(start, printed, k);
      r := SendFrame(frame, moreFollows);
      JoinNext(printed, k);
      JoinPrefix(printed, k);
      FineRefl(old(Ahead()));
      if printed[k].Success? {
        JoinPrefix(printed, k + 1);
        ProgressGrows(start, wire, sent, printed[k].value, Join(printed).bytes);
        if Clean(old(Ahead())) && r.Some? {
          CleanRunsOut(old(Ahead()), Ahead(), r);
        }
      }
    }

    /** The fragmentation loop of amqp_basic_publish. */
    method SendBody(channel: uint16, body: seq<byte>,
                    ghost start: seq<byte>, ghost printed: seq<Result<seq<byte>, Status>>)
      returns (r: Option<Status>)
      requires Valid() && 8 < frameMax && |printed| == |Fragments(body, frameMax - 8)| + 2
      requires forall k :: 2 <= k < |printed| ==>
                 printed[k] == Encoding(codec, Frame(channel, Body(Fragments(body, frameMax - 8)[k - 2])), frameMax)
      requires Sent(start, printed, 2)
      modifies this`wire, this`events, this`reports, this`more, outbound
      ensures Progress(start, wire, Join(printed).bytes)
      ensures r.None? ==> Sent(start, printed, |printed|)
      ensures r.None? ==> more == old(more) + Announced(Fragments(body, frameMax - 8), frameMax - 8)
      ensures Explained(old(Ahead()), Ahead(), Join(printed).error, r)
      ensures Clean(old(Ahead())) && Join(printed).error.None? && r.Some? ==> CutOff(start, Join(printed).bytes)
      ensures Grants(old(events)) + |old(wire)| <= Grants(events) + |wire|
    {
      hide Join, Progress, Announced, Encoding, Fragments, EncodersRespectRoom, Fine, Troubled, Clean, Grants, CutOff;
      var usable := frameMax - (HEADER_SIZE + FOOTER_SIZE);
      ghost var pieces := Fragments(body, usable);
      NothingFragmented(usable);
      var offset := 0;
      ghost var k := 0;
      assert body[0..] == body && pieces[0..] == pieces;
      NothingAnnounced(pieces, usable);
      assert more == more + [];
      SentIsProgress(start, printed, 2);
      FineRefl(Ahead());
      while offset < |body|
        invariant offset <= |body| && k <= |pieces| && pieces[k..] == Fragments(body[offset..], usable)
        invariant Sent(start, printed, k + 2) && Progress(start, wire, Join(printed).bytes)
        invariant more == old(more) + Announced(pieces[..k], usable)
        invariant Fine(old(Ahead()), Ahead())
        invariant Grants(old(events)) + |old(wire)| <= Grants(events) + |wire|
      {
        var remaining := |body| - offset;
        var length, moreFollows := remaining, false;
        if usable <= remaining {
          length, moreFollows := usable, true;
        }
        NextFragment(body, usable, offset, k);
        var frame := Frame(channel, Body(body[offset..offset + length]));
        offset := offset + length;
        ghost var before := Ahead();
        if Clean(old(Ahead())) {
          StaysClean(old(Ahead()), before);
        }
        r := SendNext(frame, moreFollows, start, printed, k + 2);
        ExplainedAfter(old(Ahead()), before, Ahead(), Join(printed).error, r);
        if r.Some? {
          return;
        }
        AnnouncedNext(pieces, k, usable);
        k := k + 1;
      }
      assert body[offset..] == [] && pieces[k..] == [];
      assert pieces[..k] == pieces;
      return None;
    }

    /** amqp_basic_publish.  Success means that the method, header and body frames are on the wire,
        once each and in order; otherwise a prefix of them is, and the error is that of the answer it
        met or of the encoder.  Success is certain when no error is ahead, everything can be printed
        and the socket is going to take something often enough. */
    method BasicPublish(channel: uint16, args: M, props: P, body: seq<byte>) returns (r: Option<Status>)
      requires Valid() && 20 <= frameMax && |body| < 0x1_0000_0000_0000_0000
      modifies this`wire, this`events, this`reports, this`more, outbound
      ensures var printed := Join(Encodings(codec, MessageFrames(channel, args, props, body, frameMax), frameMax));
              && Progress(old(wire), wire, printed.bytes)
              && (r.None? ==> printed.error.None? && wire == old(wire) + printed.bytes)
              && Explained(old(Ahead()), Ahead(), printed.error, r)
              && (Clean(old(Ahead())) && printed.error.None? && |printed.bytes| <= Grants(old(events)) ==> r.None?)
      ensures r.None? ==> AnnouncesMore(old(more), more, body, frameMax - 8)
    {
      hide Progress, Encoding, Fragments, Join, Fine, Troubled, Clean, Grants;
      ghost var printed := Encodings(codec, MessageFrames(channel, args, props, body, frameMax), frameMax);
      ghost var start, error := wire, Join(printed).error;
      NothingSent(printed);
      NothingGranted();
      ProgressStarts(start, Join(printed).bytes);
      assert Sent(start, printed, 0);
      r := CheckHeartbeat();
      ghost var checked := Ahead();
      ExplainedAs(old(Ahead()), checked, error, r);
      if r.Some? {
        return;
      }
      r := SendNext(Frame(channel, Method(BASIC_PUBLISH_METHOD, args)), true, start, printed, 0);
      ghost var first := Ahead();
      ExplainedAfter(old(Ahead()), checked, first, error, r);
      if r.Some? {
        return;
      }
      r := SendNext(Frame(channel, Header(BASIC_CLASS, |body|, props)), true, start, printed, 1);
      ghost var second := Ahead();
      ExplainedAfter(old(Ahead()), first, second, error, r);
      if r.Some? {
        return;
      }
      r := SendBody(channel, body, start, printed);
      ExplainedAfter(old(Ahead()), second, Ahead(), error, r);
      JoinPrefix(printed, |printed|);
    }
  }

  function Announced(fragments: seq<seq<byte>>, usable: nat): (r: seq<bool>)
    ensures |r| == |fragments| && forall i :: 0 <= i < |r| ==> (r[i] <==> usable <= |fragments[i]|)
  {
    seq(|fragments|, i requires 0 <= i < |fragments| => usable <= |fragments[i]|)
  }

  lemma NothingAnnounced(pieces: seq<seq<byte>>, usable: nat)
    ensures Announced(pieces[..0], usable) == []
  {
  }

  lemma AnnouncedNext(pieces: seq<seq<byte>>, k: nat, usable: nat)
    requires k < |pieces|
    ensures Announced(pieces[..k + 1], usable) == Announced(pieces[..k], usable) + [usable <= |pieces[k]|]
  {
  }

  /** Method and header are always announced as followed by more, a body frame when it is full. */
  predicate AnnouncesMore(before: seq<bool>, after: seq<bool>, body: seq<byte>, usable: nat)
    requires 0 < usable
  {
    after == before + [true, true] + Announced(Fragments(body, usable), usable)
  }

  /** Every frame of a message but the last is announced as followed by more, and the last one wrongly so
      exactly when the body is a multiple of the usable payload size, the empty body included. */
  lemma LastFrameAnnouncesMore(before: seq<bool>, after: seq<bool>, body: seq<byte>, usable: nat)
    requires 0 < usable && AnnouncesMore(before, after, body, usable)
    ensures |after| == |before| + 2 + |Fragments(body, usable)|
    ensures forall i :: |before| <= i < |after| - 1 ==> after[i]
    ensures after[|after| - 1] <==> |body| % usable == 0
  {
    hide Fragments, Flatten;
    FragmentsPartition(body, usable);
    var announced := Announced(Fragments(body, usable), usable);
    forall i | |before| <= i < |after| - 1 ensures after[i] {
      assert after[i] == if i < |before| + 2 then [true, true][i - |before|] else announced[i - |before| - 2];
    }
    if body == [] {
      assert after == before + [true, true];
      Divides(0, usable, 0, 0);
    } else {
      assert after[|after| - 1] == announced[|announced| - 1];
    }
  }
}

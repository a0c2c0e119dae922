/** AMQP 0-9-1 frames: the wire grammar of section 4.2.3 as a printer and as a reference parser
    of whole byte streams.  Method arguments and content properties are left to a codec. */
module Frames {
  import opened Options
  import opened Wire

  const HEADER_SIZE := 7
  const FOOTER_SIZE := 1
  const FRAME_METHOD: byte := 1
  const FRAME_HEADER: byte := 2
  const FRAME_BODY: byte := 3
  const FRAME_HEARTBEAT: byte := 8
  const FRAME_END: byte := 206

  /** Library status codes; OutsideModel marks inputs on which the C code leaves defined behaviour. */
  datatype Status =
    | BadAmqpData
    | InvalidParameter
    | UnexpectedState
    | SocketError
    | HeartbeatTimeout
    | CodecError(code: int)
    | OutsideModel

  datatype Payload<M, P> =
    | Method(id: uint32, args: M)
    | Header(classId: uint16, bodySize: uint64, props: P)
    | Body(fragment: seq<byte>)
    | Heartbeat
    | ProtocolHeader(high: byte, low: byte, major: byte, minor: byte)

  datatype Frame<M, P> = Frame(channel: uint16, payload: Payload<M, P>)

  /** amqp_encode_method and its three companions: an encoder is told how much room there is. */
  datatype Codec<!M, !P> = Codec(
    encodeMethod: (uint32, M, nat) -> Result<seq<byte>, Status>,
    decodeMethod: (uint32, seq<byte>) -> Result<M, Status>,
    encodeProps: (uint16, P, nat) -> Result<seq<byte>, Status>,
    decodeProps: (uint16, seq<byte>) -> Result<P, Status>)

  ghost predicate EncodersRespectRoom<M(!new), P(!new)>(c: Codec<M, P>) {
    && (forall id, m, room :: c.encodeMethod(id, m, room).Success? ==> |c.encodeMethod(id, m, room).value| <= room)
    && (forall id, p, room :: c.encodeProps(id, p, room).Success? ==> |c.encodeProps(id, p, room).value| <= room)
  }

  /** What the codec owes the frame layer for one payload: reading back what it wrote. */
  ghost predicate ReadsBack<M(!new), P(!new)>(c: Codec<M, P>, p: Payload<M, P>) {
    match p
    case Method(id, m) =>
      forall room :: c.encodeMethod(id, m, room).Success?
                     ==> c.decodeMethod(id, c.encodeMethod(id, m, room).value) == Success(m)
    case Header(id, _, props) =>
      forall room :: c.encodeProps(id, props, room).Success?
                     ==> c.decodeProps(id, c.encodeProps(id, props, room).value) == Success(props)
    case _ => true
  }

  // ---------- printing ----------

  function TypeCode<M, P>(p: Payload<M, P>): byte {
    match p
    case Method(_, _) => FRAME_METHOD
    case Header(_, _, _) => FRAME_HEADER
    case Body(_) => FRAME_BODY
    case Heartbeat => FRAME_HEARTBEAT
    case ProtocolHeader(_, _, _, _) => 'A' as int
  }

  /** What the printer demands of a caller with an outbound buffer of `cap` bytes: the fixed fields
      fit, and a body fragment, which is copied unchecked, fits. */
  predicate FitsBuffer<M, P>(p: Payload<M, P>, cap: nat) {
    match p
    case Method(_, _) => 12 <= cap
    case Header(_, _, _) => 20 <= cap
    case Body(fragment) => |fragment| + 8 <= cap
    case _ => 8 <= cap
  }

  function EncodePayload<M, P>(c: Codec<M, P>, p: Payload<M, P>, cap: nat): (r: Result<seq<byte>, Status>)
    requires FitsBuffer(p, cap)
  {
    match p
    case Method(id, m) =>
      (match c.encodeMethod(id, m, cap - 12)
       case Success(b) => Success(E32(id) + b)
       case Failure(e) => Failure(e))
    case Header(id, size, props) =>
      (match c.encodeProps(id, props, cap - 20)
       case Success(b) => Success(E16(id) + E16(0) + E64(size) + b)
       case Failure(e) => Failure(e))
    case Body(fragment) => Success(fragment)
    case Heartbeat => Success([])
    case ProtocolHeader(_, _, _, _) => Failure(InvalidParameter)
  }

  function Enclose(code: byte, channel: uint16, payload: seq<byte>): (b: seq<byte>)
    ensures |b| == |payload| + 8
  {
    [code] + E16(channel) + E32(|payload| % 0x1_0000_0000) + payload + [FRAME_END]
  }

  function Encode<M, P>(c: Codec<M, P>, f: Frame<M, P>, cap: nat): Result<seq<byte>, Status>
    requires FitsBuffer(f.payload, cap)
  {
    match EncodePayload(c, f.payload, cap)
    case Success(b) => Success(Enclose(TypeCode(f.payload), f.channel, b))
    case Failure(e) => Failure(e)
  }

  /** `b` is the frame as section 4.2.3 lays it out: type, channel and length of the payload in network
      order, the payload and the end octet 206. */
  ghost predicate IsPrinted<M, P>(c: Codec<M, P>, f: Frame<M, P>, cap: nat, b: seq<byte>) {
    && FitsBuffer(f.payload, cap) && 8 <= |b|
    && Number(b[1..3]) == f.channel && Number(b[3..7]) == (|b| - 8) % 0x1_0000_0000
    && b[|b| - 1] == 206 && IsPrintedPayload(c, f.payload, cap, b)
  }

  ghost predicate IsPrintedPayload<M, P>(c: Codec<M, P>, p: Payload<M, P>, cap: nat, b: seq<byte>)
    requires FitsBuffer(p, cap) && 8 <= |b|
  {
    match p
    case Method(id, m) =>
      b[0] == 1 && 12 <= |b| && Number(b[7..11]) == id && c.encodeMethod(id, m, cap - 12) == Success(b[11..|b| - 1])
    case Header(classId, size, props) =>
      && b[0] == 2 && 20 <= |b| && Number(b[7..9]) == classId && Number(b[9..11]) == 0 && Number(b[11..19]) == size
      && c.encodeProps(classId, props, cap - 20) == Success(b[19..|b| - 1])
    case Body(fragment) => b[0] == 3 && b[7..|b| - 1] == fragment
    case Heartbeat => b[0] == 8 && |b| == 8
    case ProtocolHeader(_, _, _, _) => false
  }

  /** What the printer writes has that layout. */
  lemma PrintedLayout<M, P>(c: Codec<M, P>, f: Frame<M, P>, cap: nat)
    requires FitsBuffer(f.payload, cap) && Encode(c, f, cap).Success?
    ensures IsPrinted(c, f, cap, Encode(c, f, cap).value)
  {
    hide Number, E16, E32, E64;
    var b, payload := Encode(c, f, cap).value, EncodePayload(c, f.payload, cap).value;
    var length := |payload| % 0x1_0000_0000;
    EncodedNumber16(f.channel);
    EncodedNumber32(length);
    assert b[1..3] == E16(f.channel) && b[3..7] == E32(length) && b[7..|b| - 1] == payload;
    match f.payload
    case Method(id, m) =>
      EncodedNumber32(id);
      assert b[7..11] == E32(id);
      assert b[11..|b| - 1] == payload[4..];
    case Header(classId, size, props) =>
      EncodedNumber16(classId);
      EncodedNumber16(0);
      EncodedNumber64(size);
      assert b[7..9] == E16(classId) && b[9..11] == E16(0) && b[11..19] == E64(size);
      assert b[19..|b| - 1] == payload[12..];
    case _ =>
  }

  lemma InTwo(s: seq<byte>, i: nat, j: nat, k: nat)
    requires i <= j <= k <= |s|
    ensures s[i..k] == s[i..j] + s[j..k]
  {
  }

  lemma SamePayload<M, P>(c: Codec<M, P>, p: Payload<M, P>, cap: nat, a: seq<byte>, b: seq<byte>)
    requires FitsBuffer(p, cap) && 8 <= |a| && 8 <= |b|
    requires IsPrintedPayload(c, p, cap, a) && IsPrintedPayload(c, p, cap, b)
    ensures a[0] == b[0] && a[7..|a| - 1] == b[7..|b| - 1]
  {
    hide Number;
    match p
    case Method(_, _) =>
      NumberIsUnique(a[7..11], b[7..11]);
      InTwo(a, 7, 11, |a| - 1);
      InTwo(b, 7, 11, |b| - 1);
    case Header(_, _, _) =>
      NumberIsUnique(a[7..9], b[7..9]);
      NumberIsUnique(a[9..11], b[9..11]);
      NumberIsUnique(a[11..19], b[11..19]);
      InTwo(a, 7, 9, 11);
      InTwo(b, 7, 9, 11);
      InTwo(a, 7, 11, 19);
      InTwo(b, 7, 11, 19);
      InTwo(a, 7, 19, |a| - 1);
      InTwo(b, 7, 19, |b| - 1);
    case Heartbeat =>
      assert a[7..|a| - 1] == [] == b[7..|b| - 1];
    case _ =>
  }

  lemma FiveParts(s: seq<byte>)
    requires 8 <= |s|
    ensures s == [s[0]] + s[1..3] + s[3..7] + s[7..|s| - 1] + [s[|s| - 1]]
  {
  }

  lemma OnlyOneLayout<M, P>(c: Codec<M, P>, f: Frame<M, P>, cap: nat, a: seq<byte>, b: seq<byte>)
    requires FitsBuffer(f.payload, cap) && IsPrinted(c, f, cap, a) && IsPrinted(c, f, cap, b)
    ensures a == b
  {
    hide IsPrintedPayload, Number;
    SamePayload(c, f.payload, cap, a, b);
    assert |a[7..|a| - 1]| == |a| - 8;
    NumberIsUnique(a[1..3], b[1..3]);
    NumberIsUnique(a[3..7], b[3..7]);
    FiveParts(a);
    FiveParts(b);
  }

  lemma LayoutIsPrinted<M, P>(c: Codec<M, P>, f: Frame<M, P>, cap: nat, b: seq<byte>)
    requires FitsBuffer(f.payload, cap) && IsPrinted(c, f, cap, b)
    ensures Encode(c, f, cap).Success?
  {
  }

  /** There is only one way to lay out a frame, and it is what the printer writes. */
  lemma PrintedIff<M, P>(c: Codec<M, P>, f: Frame<M, P>, cap: nat, b: seq<byte>)
    requires FitsBuffer(f.payload, cap)
    ensures Encode(c, f, cap) == Success(b) <==> IsPrinted(c, f, cap, b)
  {
    hide IsPrinted, Encode;
    if Encode(c, f, cap).Success? {
      PrintedLayout(c, f, cap);
    }
    if IsPrinted(c, f, cap, b) {
      LayoutIsPrinted(c, f, cap, b);
      OnlyOneLayout(c, f, cap, b, Encode(c, f, cap).value);
    }
  }

  /** It fails with the error of the encoder, and for a protocol header. */
  lemma UnprintedIff<M, P>(c: Codec<M, P>, f: Frame<M, P>, cap: nat, e: Status)
    requires FitsBuffer(f.payload, cap)
    ensures Encode(c, f, cap) == Failure(e) <==>
            match f.payload
            case Method(id, m) => c.encodeMethod(id, m, cap - 12) == Failure(e)
            case Header(classId, _, props) => c.encodeProps(classId, props, cap - 20) == Failure(e)
            case ProtocolHeader(_, _, _, _) => e == InvalidParameter
            case _ => false
  {
  }

  /** The printed form of a list of frames, up to the first one that cannot be printed. */
  datatype Printed = Printed(bytes: seq<byte>, error: Option<Status>)

  function Join(rs: seq<Result<seq<byte>, Status>>): Printed {
    if rs == [] then Printed([], None)
    else
      match rs[0]
      case Failure(e) => Printed([], Some(e))
      case Success(b) => var rest := Join(rs[1..]); Printed(b + rest.bytes, rest.error)
  }

  /** A frame too big for the buffer would be written past its end; the sender never prints one. */
  function Encoding<M, P>(c: Codec<M, P>, f: Frame<M, P>, cap: nat): Result<seq<byte>, Status> {
    if FitsBuffer(f.payload, cap) then Encode(c, f, cap) else Failure(OutsideModel)
  }

  function Encodings<M, P>(c: Codec<M, P>, fs: seq<Frame<M, P>>, cap: nat): (rs: seq<Result<seq<byte>, Status>>)
    ensures |rs| == |fs| && forall i :: 0 <= i < |fs| ==> rs[i] == Encoding(c, fs[i], cap)
  {
    seq(|fs|, i requires 0 <= i < |fs| => Encoding(c, fs[i], cap))
  }

  // ---------- reading one frame ----------

  /** What a prefix of the stream amounts to: too little, an error, or a frame of `size` bytes
      (None when its type is unknown and it is skipped). */
  datatype Outcome<M, P> =
    | NeedMore
    | Reject(status: Status)
    | Done(size: nat, frame: Option<Frame<M, P>>)

  function DecodePayload<M, P>(c: Codec<M, P>, code: byte, body: seq<byte>): Result<Option<Payload<M, P>>, Status> {
    if code == FRAME_METHOD then
      if |body| < 4 then Failure(OutsideModel) else
      match c.decodeMethod(D32(body, 0), body[4..])
      case Success(m) => Success(Some(Method(D32(body, 0), m)))
      case Failure(e) => Failure(e)
    else if code == FRAME_HEADER then
      if |body| < 12 then Failure(OutsideModel) else
      match c.decodeProps(D16(body, 0), body[12..])
      case Success(p) => Success(Some(Header(D16(body, 0), D64(body, 4), p)))
      case Failure(e) => Failure(e)
    else if code == FRAME_BODY then
      Success(Some(Body(body)))
    else if code == FRAME_HEARTBEAT then
      Success(Some(Heartbeat))
    else
      Success(None)
  }

  /** A complete frame `s`, header and footer included. */
  function DecodeFrame<M, P>(c: Codec<M, P>, s: seq<byte>): Outcome<M, P>
    requires 8 <= |s|
  {
    if s[|s| - 1] != FRAME_END then Reject(BadAmqpData)
    else
      match DecodePayload(c, s[0], s[7..|s| - 1])
      case Success(Some(p)) => Done(|s|, Some(Frame(D16(s, 1), p)))
      case Success(None) => Done(|s|, None)
      case Failure(e) => Reject(e)
  }

  /** The reference parser of one frame at the head of a stream. */
  function Examine<M, P>(c: Codec<M, P>, frameMax: nat, s: seq<byte>): Outcome<M, P> {
    if |s| < 7 then NeedMore
    else
      var size := D32(s, 3) + 8;
      if 0x1_0000_0000 <= size then Reject(OutsideModel)
      else if frameMax < size then Reject(BadAmqpData)
      else if |s| < size then NeedMore
      else DecodeFrame(c, s[..size])
  }

  // ---------- the layout of a frame, byte by byte ----------

  /** The first `n` bytes of `s` are a frame as section 4.2.3 lays it out: type, channel, length,
      payload and the end octet 206.  None is a frame of a type that the library does not know. */
  ghost predicate IsFrame<M, P>(c: Codec<M, P>, s: seq<byte>, n: nat, frame: Option<Frame<M, P>>) {
    && 8 <= n <= |s| && Number(s[3..7]) == n - 8 && s[n - 1] == 206
    && match frame
       case None => s[0] !in {1, 2, 3, 8}
       case Some(Frame(channel, payload)) => Number(s[1..3]) == channel && IsPayload(c, s, n, payload)
  }

  ghost predicate IsPayload<M, P>(c: Codec<M, P>, s: seq<byte>, n: nat, payload: Payload<M, P>)
    requires 8 <= n <= |s|
  {
    match payload
    case Method(id, m) =>
      s[0] == 1 && 12 <= n && Number(s[7..11]) == id && c.decodeMethod(id, s[11..n - 1]) == Success(m)
    case Header(classId, size, props) =>
      && s[0] == 2 && 20 <= n && Number(s[7..9]) == classId && Number(s[11..19]) == size
      && c.decodeProps(classId, s[19..n - 1]) == Success(props)
    case Body(fragment) => s[0] == 3 && s[7..n - 1] == fragment
    case Heartbeat => s[0] == 8
    case ProtocolHeader(_, _, _, _) => false
  }

  ghost predicate RefusesMethod<M, P>(c: Codec<M, P>, s: seq<byte>, n: nat, id: uint32, e: Status)
    requires 12 <= n <= |s|
  {
    Number(s[7..11]) == id && c.decodeMethod(id, s[11..n - 1]) == Failure(e)
  }

  ghost predicate RefusesProps<M, P>(c: Codec<M, P>, s: seq<byte>, n: nat, classId: uint16, e: Status)
    requires 20 <= n <= |s|
  {
    Number(s[7..9]) == classId && c.decodeProps(classId, s[19..n - 1]) == Failure(e)
  }

  /** Why `n` complete bytes are refused: the last one is not the end octet, or the payload is too
      short for its fixed fields or refused by the codec. */
  ghost predicate IsRefused<M, P>(c: Codec<M, P>, s: seq<byte>, n: nat, e: Status)
    requires 8 <= n <= |s|
  {
    if s[n - 1] != 206 then e == BadAmqpData
    else if s[0] == 1 then
      if n < 12 then e == OutsideModel
      else exists id :: RefusesMethod(c, s, n, id, e)
    else if s[0] == 2 then
      if n < 20 then e == OutsideModel
      else exists classId :: RefusesProps(c, s, n, classId, e)
    else false
  }

  lemma FixedFields<M, P>(c: Codec<M, P>, s: seq<byte>, n: nat)
    requires 8 <= n <= |s|
    ensures var body := s[7..n - 1];
            && (12 <= n ==> D32(body, 0) == Number(s[7..11]) && body[4..] == s[11..n - 1])
            && (20 <= n ==> D16(body, 0) == Number(s[7..9]) && D64(body, 4) == Number(s[11..19])
                            && body[12..] == s[19..n - 1])
  {
    hide Number, D16, D32, D64;
    var body := s[7..n - 1];
    if 12 <= n {
      DecodedNumber32(body, 0);
      PartOf(s, 7, n - 1, 0, 4);
      PartOf(s, 7, n - 1, 4, n - 8);
    }
    if 20 <= n {
      DecodedNumber16(body, 0);
      DecodedNumber64(body, 4);
      PartOf(s, 7, n - 1, 0, 2);
      PartOf(s, 7, n - 1, 4, 12);
      PartOf(s, 7, n - 1, 12, n - 8);
    }
  }

  lemma PayloadIff<M, P>(c: Codec<M, P>, s: seq<byte>, n: nat, p: Payload<M, P>)
    requires 8 <= n <= |s|
    ensures DecodePayload(c, s[0], s[7..n - 1]) == Success(Some(p)) <==> IsPayload(c, s, n, p)
    ensures DecodePayload(c, s[0], s[7..n - 1]) == Success(None) <==> s[0] !in {1, 2, 3, 8}
  {
    hide Number, D16, D32, D64;
    FixedFields(c, s, n);
  }

  lemma RefusedIff<M, P>(c: Codec<M, P>, s: seq<byte>, n: nat, e: Status)
    requires 8 <= n <= |s| && s[n - 1] == 206
    ensures DecodePayload(c, s[0], s[7..n - 1]) == Failure(e) <==> IsRefused(c, s, n, e)
  {
    hide Number, D16, D32, D64;
    FixedFields(c, s, n);
    if s[0] == 1 && 12 <= n {
      assert c.decodeMethod(D32(s[7..n - 1], 0), s[11..n - 1]) == Failure(e) ==>
          RefusesMethod(c, s, n, D32(s[7..n - 1], 0), e);
    }
    if s[0] == 2 && 20 <= n {
      assert c.decodeProps(D16(s[7..n - 1], 0), s[19..n - 1]) == Failure(e) ==>
          RefusesProps(c, s, n, D16(s[7..n - 1], 0), e);
    }
  }

  /** Exactly the frames of the standard within the limit are accepted, and taken as a whole. */
  lemma DoneIff<M, P>(c: Codec<M, P>, frameMax: nat, s: seq<byte>, n: nat, frame: Option<Frame<M, P>>)
    ensures Examine(c, frameMax, s) == Done(n, frame) <==>
            IsFrame(c, s, n, frame) && n <= frameMax && n < 0x1_0000_0000
  {
    hide DecodePayload, IsPayload, IsRefused, Number, D16, D32;
    if 7 <= |s| {
      DecodedNumber32(s, 3);
      DecodedNumber16(s, 1);
      var size := D32(s, 3) + 8;
      if size <= |s| {
        PayloadIff(c, s, size, if frame.Some? then frame.value.payload else Heartbeat);
        WholeFrame(c, s, size);
      }
    }
  }

  lemma WholeFrame<M, P>(c: Codec<M, P>, s: seq<byte>, n: nat)
    requires 8 <= n <= |s|
    ensures var t := s[..n];
            t[0] == s[0] && t[n - 1] == s[n - 1] && D16(t, 1) == D16(s, 1) && t[7..n - 1] == s[7..n - 1]
  {
  }

  /** Otherwise a stream is rejected for its length, its end octet or its payload, and as soon as that
      can be seen; as long as nothing is wrong and bytes are missing, more are awaited. */
  lemma RejectIff<M, P>(c: Codec<M, P>, frameMax: nat, s: seq<byte>, e: Status)
    ensures Examine(c, frameMax, s) == Reject(e) <==>
            && 7 <= |s|
            && var n := Number(s[3..7]) + 8;
               if 0x1_0000_0000 <= n then e == OutsideModel
               else if frameMax < n then e == BadAmqpData
               else n <= |s| && IsRefused(c, s, n, e)
    ensures Examine(c, frameMax, s).NeedMore? <==>
            7 <= |s| ==> var n := Number(s[3..7]) + 8; |s| < n <= frameMax && n < 0x1_0000_0000
  {
    hide DecodePayload, RefusesMethod, RefusesProps, Number, D16, D32;
    if 7 <= |s| {
      DecodedNumber32(s, 3);
      var size := D32(s, 3) + 8;
      if size <= |s| {
        WholeFrame(c, s, size);
        if s[size - 1] == 206 {
          RefusedIff(c, s, size, e);
        }
      }
    }
  }

  lemma PartOf(s: seq<byte>, from: nat, to: nat, i: nat, j: nat)
    requires i <= j <= to - from && to <= |s|
    ensures s[from..to][i..j] == s[from + i..from + j]
  {
    forall k | 0 <= k < j - i
      ensures s[from..to][i..j][k] == s[from + i..from + j][k]
    {
      assert s[from..to][i + k] == s[from + i + k];
    }
  }

  // ---------- reading a stream ----------

  /** The reader between two calls: whether the server's first answer is still due, and the bytes of
      the frame in progress. */
  datatype Reader = Reader(initial: bool, pending: seq<byte>)

  function Extend(r: Reader, data: seq<byte>): Reader { r.(pending := r.pending + data) }

  predicate IsProtocolHeader(s: seq<byte>) {
    4 <= |s| && s[0] == 'A' as int && s[1] == 'M' as int && s[2] == 'Q' as int && s[3] == 'P' as int
  }

  /** The very first answer may be an 8-byte protocol header (section 4.2.2).  When it is a frame
      instead, eight bytes have been buffered but only seven are carried over to the zeroed frame
      buffer, so that byte 7 is lost. */
  function ExamineReader<M, P>(c: Codec<M, P>, frameMax: nat, r: Reader): Outcome<M, P> {
    if !r.initial then Examine(c, frameMax, r.pending)
    else if |r.pending| < 8 then NeedMore
    else if IsProtocolHeader(r.pending) then
      Done(8, Some(Frame(0, ProtocolHeader(r.pending[4], r.pending[5], r.pending[6], r.pending[7]))))
    else Examine(c, frameMax, r.pending[7 := 0])
  }

  /** A protocol header is read exactly from the eight bytes "AMQP" and four numbers, and on a new
      connection nothing is decided before eight bytes are there. */
  lemma GreetingIff<M, P>(c: Codec<M, P>, frameMax: nat, s: seq<byte>, high: byte, low: byte, major: byte, minor: byte)
    ensures ExamineReader(c, frameMax, Reader(true, s))
            == Done(8, Some(Frame(0, ProtocolHeader(high, low, major, minor))))
            <==> 8 <= |s| && s[..8] == [65, 77, 81, 80, high, low, major, minor]
    ensures |s| < 8 ==> ExamineReader(c, frameMax, Reader(true, s)).NeedMore?
  {
    hide Examine, Number;
    if 8 <= |s| {
      DoneIff(c, frameMax, s[7 := 0], 8, Some(Frame(0, ProtocolHeader(high, low, major, minor))));
      assert s[..8] == [s[0], s[1], s[2], s[3], s[4], s[5], s[6], s[7]];
    }
  }

  /** The same reader once the first eight bytes have been looked at. */
  function Settle(r: Reader): Reader {
    if r.initial && 8 <= |r.pending| then Reader(false, r.pending[7 := 0]) else r
  }

  datatype Parsed<M, P> = Parsed(frames: seq<Frame<M, P>>, rest: Reader, error: Option<Status>)

  /** A reading preceded by frames read before it. */
  function After<M, P>(frames: seq<Frame<M, P>>, p: Parsed<M, P>): Parsed<M, P> {
    Parsed(frames + p.frames, p.rest, p.error)
  }

  lemma AfterAfter<M, P>(f: seq<Frame<M, P>>, g: seq<Frame<M, P>>, p: Parsed<M, P>)
    ensures After(f, After(g, p)) == After(f + g, p)
  {
    assert f + (g + p.frames) == (f + g) + p.frames;
  }

  function Opt<T>(o: Option<T>): seq<T> { if o.Some? then [o.value] else [] }

  /** The meaning of a byte stream: its frames up to the first error or to its unfinished tail. */
  function Parse<M, P>(c: Codec<M, P>, frameMax: nat, r: Reader): Parsed<M, P>
    decreases |r.pending|
  {
    match ExamineReader(c, frameMax, r)
    case NeedMore => Parsed([], Settle(r), None)
    case Reject(e) => Parsed([], Settle(r), Some(e))
    case Done(size, frame) =>
      DoneSize(c, frameMax, r);
      After(Opt(frame), Parse(c, frameMax, Reader(false, r.pending[size..])))
  }

  /** A frame at the head of a stream takes at least eight bytes of it. */
  lemma DoneSize<M, P>(c: Codec<M, P>, frameMax: nat, r: Reader)
    requires ExamineReader(c, frameMax, r).Done?
    ensures 8 <= ExamineReader(c, frameMax, r).size <= |r.pending|
  {
  }

  // ---------- the verdict on a prefix is final ----------

  lemma ExamineExtends<M, P>(c: Codec<M, P>, frameMax: nat, a: seq<byte>, b: seq<byte>)
    requires !Examine(c, frameMax, a).NeedMore?
    ensures Examine(c, frameMax, a + b) == Examine(c, frameMax, a)
  {
    var s := a + b;
    assert s[3] == a[3] && s[4] == a[4] && s[5] == a[5] && s[6] == a[6];
    var size := D32(a, 3) + 8;
    if size <= |a| {
      assert s[..size] == a[..size];
    }
  }

  lemma ReaderExtends<M, P>(c: Codec<M, P>, frameMax: nat, r: Reader, b: seq<byte>)
    requires !ExamineReader(c, frameMax, r).NeedMore?
    ensures ExamineReader(c, frameMax, Extend(r, b)) == ExamineReader(c, frameMax, r)
  {
    if !r.initial {
      ExamineExtends(c, frameMax, r.pending, b);
    } else if !IsProtocolHeader(r.pending) {
      assert (r.pending + b)[7 := 0] == r.pending[7 := 0] + b;
      ExamineExtends(c, frameMax, r.pending[7 := 0], b);
    }
  }

  lemma SettleExtends<M, P>(c: Codec<M, P>, frameMax: nat, r: Reader, b: seq<byte>)
    requires ExamineReader(c, frameMax, r).NeedMore?
    ensures Parse(c, frameMax, Extend(Settle(r), b)) == Parse(c, frameMax, Extend(r, b))
  {
    if r.initial && 8 <= |r.pending| {
      var x, y := Extend(r, b), Extend(Settle(r), b);
      assert x.pending[7 := 0] == y.pending;
      assert ExamineReader(c, frameMax, x) == ExamineReader(c, frameMax, y);
      match ExamineReader(c, frameMax, x)
      case NeedMore =>
      case Reject(e) =>
      case Done(size, frame) =>
        assert x.pending[size..] == y.pending[size..];
    }
  }

  /** The first decisions on a stream that begins with a whole header. */
  lemma ExamineBySize<M, P>(c: Codec<M, P>, frameMax: nat, s: seq<byte>)
    requires 7 <= |s|
    ensures var size, verdict := D32(s, 3) + HEADER_SIZE + FOOTER_SIZE, Examine(c, frameMax, s);
            if 0x1_0000_0000 <= size then verdict == Reject(OutsideModel)
            else if frameMax < size then verdict == Reject(BadAmqpData)
            else |s| < size ==> verdict == NeedMore
  {
  }

  /** Reading a stream in two pieces is reading it at once. */
  lemma {:induction false} ParseSplit<M, P>(c: Codec<M, P>, frameMax: nat, r: Reader, b: seq<byte>)
    ensures var p, whole := Parse(c, frameMax, r), Parse(c, frameMax, Extend(r, b));
            if p.error.Some? then whole.frames == p.frames && whole.error == p.error
            else whole == After(p.frames, Parse(c, frameMax, Extend(p.rest, b)))
    decreases |r.pending|
  {
    match ExamineReader(c, frameMax, r)
    case NeedMore =>
      SettleExtends(c, frameMax, r, b);
    case Reject(e) =>
      ReaderExtends(c, frameMax, r, b);
    case Done(size, frame) =>
      ReaderExtends(c, frameMax, r, b);
      DoneSize(c, frameMax, r);
      var tail := Reader(false, r.pending[size..]);
      assert Extend(r, b).pending[size..] == Extend(tail, b).pending;
      ParseSplit(c, frameMax, tail, b);
      var p, whole := Parse(c, frameMax, tail), Parse(c, frameMax, Extend(tail, b));
      assert Parse(c, frameMax, r) == After(Opt(frame), p);
      assert Parse(c, frameMax, Extend(r, b)) == After(Opt(frame), whole);
      if p.error.None? {
        AfterAfter(Opt(frame), p.frames, Parse(c, frameMax, Extend(p.rest, b)));
      }
  }

  // ---------- chunked delivery ----------

  function Flatten(chunks: seq<seq<byte>>): seq<byte> {
    if chunks == [] then [] else chunks[0] + Flatten(chunks[1..])
  }

  /** Reading whatever the socket delivers, chunk after chunk, up to the first error. */
  function Run<M, P>(c: Codec<M, P>, frameMax: nat, r: Reader, chunks: seq<seq<byte>>): Parsed<M, P>
    decreases |chunks|
  {
    if chunks == [] then Parsed([], r, None)
    else
      var p := Parse(c, frameMax, Extend(r, chunks[0]));
      if p.error.Some? then p
      else
        After(p.frames, Run(c, frameMax, p.rest, chunks[1..]))
  }

  predicate Quiescent<M, P>(c: Codec<M, P>, frameMax: nat, r: Reader) {
    ExamineReader(c, frameMax, r).NeedMore? && Settle(r) == r
  }

  lemma {:induction false} ParseLeavesQuiescent<M, P>(c: Codec<M, P>, frameMax: nat, r: Reader)
    ensures var p := Parse(c, frameMax, r); p.error.None? ==> Quiescent(c, frameMax, p.rest)
    decreases |r.pending|
  {
    match ExamineReader(c, frameMax, r)
    case NeedMore =>
    case Reject(_) =>
    case Done(size, _) =>
      DoneSize(c, frameMax, r);
      ParseLeavesQuiescent(c, frameMax, Reader(false, r.pending[size..]));
  }

  /** Chunked reading gives the frames, the error and, absent an error, the final reader of the
      concatenated stream. */
  lemma {:induction false} RunIsParse<M, P>(c: Codec<M, P>, frameMax: nat, r: Reader, chunks: seq<seq<byte>>)
    requires Quiescent(c, frameMax, r)
    ensures var run, whole := Run(c, frameMax, r, chunks), Parse(c, frameMax, Extend(r, Flatten(chunks)));
            run.frames == whole.frames && run.error == whole.error && (run.error.None? ==> run.rest == whole.rest)
    decreases |chunks|
  {
    if chunks == [] {
      assert r.pending + [] == r.pending;
    } else {
      var head, tail := chunks[0], Flatten(chunks[1..]);
      var p := Parse(c, frameMax, Extend(r, head));
      assert r.pending + (head + tail) == (r.pending + head) + tail;
      ParseSplit(c, frameMax, Extend(r, head), tail);
      if p.error.None? {
        ParseLeavesQuiescent(c, frameMax, Extend(r, head));
        RunIsParse(c, frameMax, p.rest, chunks[1..]);
      }
    }
  }

  /** A run seen after `read` has been read and `i` chunks have gone. */
  lemma RunNext<M, P>(c: Codec<M, P>, frameMax: nat, r: Reader, chunks: seq<seq<byte>>, i: nat, read: seq<Frame<M, P>>)
    requires i < |chunks|
    ensures var p := Parse(c, frameMax, Extend(r, chunks[i]));
            var run := After(read, Run(c, frameMax, r, chunks[i..]));
            if p.error.Some? then run.frames == read + p.frames && run.error == p.error
            else run == After(read + p.frames, Run(c, frameMax, p.rest, chunks[i + 1..]))
  {
    hide Parse;
    var p := Parse(c, frameMax, Extend(r, chunks[i]));
    assert chunks[i..][0] == chunks[i] && chunks[i..][1..] == chunks[i + 1..];
    AfterAfter(read, p.frames, Run(c, frameMax, p.rest, chunks[i + 1..]));
  }

  lemma RunEnds<M, P>(c: Codec<M, P>, frameMax: nat, r: Reader, chunks: seq<seq<byte>>, read: seq<Frame<M, P>>)
    ensures After(read, Run(c, frameMax, r, chunks[|chunks|..])) == Parsed(read, r, None)
    ensures After([], Run(c, frameMax, r, chunks[0..])) == Run(c, frameMax, r, chunks)
  {
    assert chunks[0..] == chunks && read + [] == read;
    var run := Run(c, frameMax, r, chunks);
    assert [] + run.frames == run.frames;
  }

  /** However the socket splits a stream, the outcome is the same. */
  lemma ChunkingIndependence<M, P>(c: Codec<M, P>, frameMax: nat, r: Reader, one: seq<seq<byte>>, other: seq<seq<byte>>)
    requires Quiescent(c, frameMax, r) && Flatten(one) == Flatten(other)
    ensures var a, b := Run(c, frameMax, r, one), Run(c, frameMax, r, other);
            a.frames == b.frames && a.error == b.error && (a.error.None? ==> a.rest == b.rest)
  {
    RunIsParse(c, frameMax, r, one);
    RunIsParse(c, frameMax, r, other);
  }

  // ---------- reading what was printed ----------

  lemma EnclosedParts(code: byte, channel: uint16, payload: seq<byte>, rest: seq<byte>)
    requires |payload| + 8 < 0x1_0000_0000
    ensures var b := Enclose(code, channel, payload); var s := b + rest;
            && D32(s, 3) == |payload| && s[..|payload| + 8] == b
            && b[0] == code && D16(b, 1) == channel && b[7..|b| - 1] == payload && b[|b| - 1] == FRAME_END
  {
    hide E16, E32, D16, D32;
    var b := Enclose(code, channel, payload);
    var s := b + rest;
    assert b[3..7] == E32(|payload|) && b[1..3] == E16(channel);
    assert s[3..7] == b[3..7];
    DecodeEncode32(s, 3, |payload|);
    DecodeEncode16(b, 1, channel);
  }

  lemma ExamineEnclosed<M, P>(c: Codec<M, P>, frameMax: nat, code: byte, channel: uint16, payload: seq<byte>,
                              rest: seq<byte>)
    requires |payload| + 8 <= frameMax && |payload| + 8 < 0x1_0000_0000
    ensures var size := |payload| + 8;
            Examine(c, frameMax, Enclose(code, channel, payload) + rest) ==
            match DecodePayload(c, code, payload)
            case Success(Some(p)) => Done(size, Some(Frame(channel, p)))
            case Success(None) => Done(size, None)
            case Failure(e) => Reject(e)
  {
    hide Enclose, D16, D32, DecodePayload;
    EnclosedParts(code, channel, payload, rest);
  }

  lemma DecodeEncodePayload<M(!new), P(!new)>(c: Codec<M, P>, p: Payload<M, P>, cap: nat)
    requires FitsBuffer(p, cap) && ReadsBack(c, p) && EncodePayload(c, p, cap).Success?
    ensures DecodePayload(c, TypeCode(p), EncodePayload(c, p, cap).value) == Success(Some(p))
  {
    var b := EncodePayload(c, p, cap).value;
    match p
    case Method(id, m) =>
      assert b[..4] == b[0..4] == E32(id);
      DecodeEncode32(b, 0, id);
      assert b[4..] == c.encodeMethod(id, m, cap - 12).value;
    case Header(id, size, props) =>
      assert b[0..2] == E16(id) && b[4..12] == E64(size);
      DecodeEncode16(b, 0, id);
      DecodeEncode64(b, 4, size);
      assert b[12..] == c.encodeProps(id, props, cap - 20).value;
    case Body(_) =>
    case Heartbeat =>
    case ProtocolHeader(_, _, _, _) =>
  }

  /** Reading one printed frame, whatever follows it on the wire. */
  lemma FrameRoundTrip<M(!new), P(!new)>(c: Codec<M, P>, frameMax: nat, f: Frame<M, P>, cap: nat, rest: seq<byte>)
    requires FitsBuffer(f.payload, cap) && ReadsBack(c, f.payload)
    requires Encode(c, f, cap).Success? && |Encode(c, f, cap).value| <= frameMax < 0x8000_0000
    ensures Examine(c, frameMax, Encode(c, f, cap).value + rest) == Done(|Encode(c, f, cap).value|, Some(f))
  {
    var payload := EncodePayload(c, f.payload, cap).value;
    ExamineEnclosed(c, frameMax, TypeCode(f.payload), f.channel, payload, rest);
    DecodeEncodePayload(c, f.payload, cap);
  }

  lemma EncodedFits<M(!new), P(!new)>(c: Codec<M, P>, f: Frame<M, P>, cap: nat)
    requires EncodersRespectRoom(c) && FitsBuffer(f.payload, cap) && Encode(c, f, cap).Success?
    ensures |Encode(c, f, cap).value| <= cap
  {
  }

  /** Reading a printed list of frames yields the list, and leaves the reader between two frames. */
  lemma {:induction false} StreamRoundTrip<M(!new), P(!new)>(c: Codec<M, P>, frameMax: nat, fs: seq<Frame<M, P>>,
                                                             cap: nat)
    requires cap <= frameMax < 0x8000_0000 && EncodersRespectRoom(c)
    requires Join(Encodings(c, fs, cap)).error.None? && forall i :: 0 <= i < |fs| ==> ReadsBack(c, fs[i].payload)
    ensures Parse(c, frameMax, Reader(false, Join(Encodings(c, fs, cap)).bytes)) == Parsed(fs, Reader(false, []), None)
    decreases |fs|
  {
    hide Encode, EncodePayload, DecodePayload, ReadsBack, EncodersRespectRoom;
    if fs != [] {
      EncodedFits(c, fs[0], cap);
      var b, rest := Encode(c, fs[0], cap).value, Join(Encodings(c, fs[1..], cap)).bytes;
      assert Encodings(c, fs, cap)[1..] == Encodings(c, fs[1..], cap);
      FrameRoundTrip(c, frameMax, fs[0], cap, rest);
      assert (b + rest)[|b|..] == rest;
      StreamRoundTrip(c, frameMax, fs[1..], cap);
    }
  }

  // ---------- the first frame of a connection ----------

  /** On a new connection a stream that does not begin with "AMQP" is read as if its byte 7 were
      zero: no earlier and with no other result. */
  lemma FirstFrameLosesByteSeven<M, P>(c: Codec<M, P>, frameMax: nat, s: seq<byte>)
    requires 8 <= |s| && !IsProtocolHeader(s)
    ensures Parse(c, frameMax, Reader(true, s)) == Parse(c, frameMax, Reader(false, s[7 := 0]))
  {
    match ExamineReader(c, frameMax, Reader(true, s))
    case NeedMore =>
    case Reject(_) =>
    case Done(size, _) => assert s[size..] == s[7 := 0][size..];
  }

  /** A first frame with an empty payload, such as a heartbeat, is rejected: its byte 7 is the footer. */
  lemma FirstEmptyFrameRejected<M, P>(c: Codec<M, P>, frameMax: nat, code: byte, channel: uint16, rest: seq<byte>)
    requires 8 <= frameMax && code != 'A' as int
    ensures ExamineReader(c, frameMax, Reader(true, Enclose(code, channel, []) + rest)) == Reject(BadAmqpData)
    ensures code == FRAME_HEARTBEAT ==>
              Examine(c, frameMax, Enclose(code, channel, []) + rest) == Done(8, Some(Frame(channel, Heartbeat)))
  {
    var s := Enclose(code, channel, []) + rest;
    assert s[3..7] == E32(0);
    DecodeEncode32(s, 3, 0);
    var t := s[7 := 0];
    assert t[3..7] == E32(0);
    DecodeEncode32(t, 3, 0);
    ExamineEnclosed(c, frameMax, code, channel, [], rest);
  }

  /** A first frame with a payload survives the loss exactly when its first payload byte is zero. */
  lemma FirstBodyFrame<M, P>(c: Codec<M, P>, frameMax: nat, channel: uint16, fragment: seq<byte>, rest: seq<byte>)
    requires 0 < |fragment| && |fragment| + 8 <= frameMax < 0x8000_0000
    ensures ExamineReader(c, frameMax, Reader(true, Enclose(FRAME_BODY, channel, fragment) + rest))
            == Done(|fragment| + 8, Some(Frame(channel, Body(fragment[0 := 0]))))
  {
    var s, zeroed := Enclose(FRAME_BODY, channel, fragment) + rest, fragment[0 := 0];
    assert s[7 := 0] == Enclose(FRAME_BODY, channel, zeroed) + rest;
    ExamineEnclosed(c, frameMax, FRAME_BODY, channel, zeroed, rest);
  }

  /** Zeroing the first byte of a non-empty printed payload leaves it a payload of the same frame
      exactly when that byte was zero. */
  lemma ZeroedPayload<M(!new), P(!new)>(c: Codec<M, P>, p: Payload<M, P>, cap: nat)
    requires FitsBuffer(p, cap) && ReadsBack(c, p) && EncodePayload(c, p, cap).Success?
    requires EncodePayload(c, p, cap).value != []
    ensures var b := EncodePayload(c, p, cap).value;
            DecodePayload(c, TypeCode(p), b[0 := 0]) == Success(Some(p)) <==> b[0] == 0
  {
    var b := EncodePayload(c, p, cap).value;
    if b[0] == 0 {
      assert b[0 := 0] == b;
      DecodeEncodePayload(c, p, cap);
    } else {
      match p
      case Method(id, m) =>
        assert b[..4] == b[0..4] == E32(id);
        DecodeEncode32(b, 0, id);
      case Header(id, size, props) =>
        assert b[0..2] == E16(id);
        DecodeEncode16(b, 0, id);
      case Body(fragment) =>
        assert b[0 := 0][0] != fragment[0];
      case _ =>
    }
  }

  /** The first frame of a connection is received as it was sent exactly when it has a payload that
      starts with a zero byte. */
  lemma FirstFrameArrivesIff<M(!new), P(!new)>(c: Codec<M, P>, frameMax: nat, f: Frame<M, P>, cap: nat, rest: seq<byte>)
    requires FitsBuffer(f.payload, cap) && ReadsBack(c, f.payload)
    requires Encode(c, f, cap).Success? && |Encode(c, f, cap).value| <= frameMax < 0x8000_0000
    ensures var b := Encode(c, f, cap).value;
            ExamineReader(c, frameMax, Reader(true, b + rest)) == Done(|b|, Some(f)) <==> 8 < |b| && b[7] == 0
  {
    hide Examine, DecodePayload, EncodePayload, Enclose, ReadsBack, FitsBuffer;
    var payload := EncodePayload(c, f.payload, cap).value;
    var code := TypeCode(f.payload);
    PrintedFrame(c, f, cap);
    if payload == [] {
      FirstEmptyFrameRejected(c, frameMax, code, f.channel, rest);
    } else {
      var zeroed := payload[0 := 0];
      ZeroedFrame(code, f.channel, payload, rest);
      ExamineEnclosed(c, frameMax, code, f.channel, zeroed, rest);
      ZeroedPayload(c, f.payload, cap);
    }
  }

  lemma PrintedFrame<M(!new), P(!new)>(c: Codec<M, P>, f: Frame<M, P>, cap: nat)
    requires FitsBuffer(f.payload, cap) && Encode(c, f, cap).Success?
    ensures TypeCode(f.payload) in {FRAME_METHOD, FRAME_HEADER, FRAME_BODY, FRAME_HEARTBEAT}
    ensures EncodePayload(c, f.payload, cap).Success?
    ensures Encode(c, f, cap).value == Enclose(TypeCode(f.payload), f.channel, EncodePayload(c, f.payload, cap).value)
  {
  }

  lemma ZeroedFrame(code: byte, channel: uint16, payload: seq<byte>, rest: seq<byte>)
    requires payload != [] && code != 'A' as int
    ensures var b := Enclose(code, channel, payload);
            && (b + rest)[7 := 0] == Enclose(code, channel, payload[0 := 0]) + rest
            && b[7] == payload[0] && b[0] == code && !IsProtocolHeader(b + rest)
  {
  }

  /** For a method frame this means a class number below 256, which the standard's are. */
  lemma FirstMethodArrivesIff<M(!new), P(!new)>(c: Codec<M, P>, frameMax: nat, f: Frame<M, P>, cap: nat,
                                                rest: seq<byte>)
    requires f.payload.Method? && FitsBuffer(f.payload, cap) && ReadsBack(c, f.payload)
    requires Encode(c, f, cap).Success? && |Encode(c, f, cap).value| <= frameMax < 0x8000_0000
    ensures var b := Encode(c, f, cap).value;
            ExamineReader(c, frameMax, Reader(true, b + rest)) == Done(|b|, Some(f)) <==> f.payload.id < 0x100_0000
  {
    var b, payload := Encode(c, f, cap).value, EncodePayload(c, f.payload, cap).value;
    FirstFrameArrivesIff(c, frameMax, f, cap, rest);
    assert b[7] == payload[0] == E32(f.payload.id)[0] == f.payload.id / 0x1_0000 / 0x100;
  }
}

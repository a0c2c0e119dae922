/** The receiving half of a connection: the resumable byte-level state machine of amqp_handle_input
    and the caller loop its documentation prescribes. */
module Connections {
  import opened Options
  import opened Wire
  import opened Frames

  datatype ConnectionState = IDLE | INITIAL | HEADER | BODY

  class Connection<M(!new), P(!new)> {
    const codec: Codec<M, P>
    var state: ConnectionState
    var frameMax: nat
    const headerBuffer: array<byte>
    var inboundBuffer: array<byte>
    var inboundOffset: nat
    var targetSize: nat

    /** The invariant between two calls.  BODY holds the first `inboundOffset` bytes of a frame whose
        size its own length field gives; all other states collect a header. */
    ghost predicate Valid()
      reads this, headerBuffer, inboundBuffer
    {
      && headerBuffer.Length == 8
      && frameMax < 0x8000_0000
      && inboundOffset < targetSize <= inboundBuffer.Length
      && (state != BODY ==> inboundBuffer == headerBuffer)
      && match state
         case INITIAL => targetSize == 8
         case IDLE => targetSize == 7 && inboundOffset == 0
         case HEADER => targetSize == 7 && 0 < inboundOffset
         case BODY => inboundBuffer != headerBuffer && 7 <= inboundOffset &&
                      targetSize == D32(inboundBuffer[..7], 3) + 8 <= frameMax
    }

    /** The bytes of the frame in progress. */
    ghost function Reading(): Reader
      reads this, inboundBuffer
      requires inboundOffset <= inboundBuffer.Length
    {
      Reader(state == INITIAL, inboundBuffer[..inboundOffset])
    }

    /** amqp_new_connection, for any first limit; the source starts with 65536. */
    constructor (codec: Codec<M, P>, frameMax: nat)
      requires frameMax < 0x8000_0000
      ensures Valid() && Reading() == Reader(true, [])
      ensures this.codec == codec && this.frameMax == frameMax && fresh(headerBuffer)
    {
      this.codec, this.frameMax := codec, frameMax;
      var buffer := new byte[8];
      headerBuffer, inboundBuffer := buffer, buffer;
      state, inboundOffset, targetSize := INITIAL, 0, 8;
    }

    /** amqp_tune_connection, which aborts the program unless no frame is in progress: a frame is read
        under one limit from its first byte to its last. */
    method Tune(newMax: nat) returns (aborted: bool)
      requires Valid() && newMax < 0x8000_0000
      modifies this`frameMax
      ensures aborted <==> old(Reading()) != Reader(false, [])
      ensures Valid() && Reading() == old(Reading()) && frameMax == if aborted then old(frameMax) else newMax
    {
      aborted := state != IDLE;
      if !aborted {
        frameMax := newMax;
      }
    }

    method ReturnToIdle()
      requires headerBuffer.Length == 8 && frameMax < 0x8000_0000
      modifies this
      ensures Valid() && state == IDLE && Reading() == Reader(false, []) && inboundBuffer == headerBuffer
      ensures frameMax == old(frameMax)
    {
      inboundBuffer := headerBuffer;
      inboundOffset := 0;
      targetSize := HEADER_SIZE;
      state := IDLE;
    }

    /** Copies what is available and fits, and says how much that was. */
    method ConsumeData(data: seq<byte>) returns (consumed: nat)
      requires inboundOffset <= targetSize <= inboundBuffer.Length
      modifies this`inboundOffset, inboundBuffer
      ensures consumed == if |data| < targetSize - old(inboundOffset) then |data| else targetSize - old(inboundOffset)
      ensures inboundOffset == old(inboundOffset) + consumed
      ensures inboundBuffer[..inboundOffset] == old(inboundBuffer[..inboundOffset]) + data[..consumed]
    {
      consumed := targetSize - inboundOffset;
      if |data| < consumed {
        consumed := |data|;
      }
      forall i | 0 <= i < consumed {
        inboundBuffer[inboundOffset + i] := data[i];
      }
      inboundOffset := inboundOffset + consumed;
    }

    /** Memory from a channel pool.  A pool that has never been recycled hands out zeroed memory;
        afterwards its contents are arbitrary. */
    method AllocateFrame(size: nat, zeroed: bool) returns (buffer: array<byte>)
      ensures fresh(buffer) && buffer.Length == size
      ensures zeroed ==> forall i :: 0 <= i < size ==> buffer[i] == 0
    {
      if zeroed {
        buffer := new byte[size](_ => 0);
      } else {
        buffer := new byte[size];
      }
    }

    /** Memory for the frame whose header has just been collected. */
    method StartFrame(first: bool, ghost stream: seq<byte>)
      requires headerBuffer.Length == 8 && inboundBuffer == headerBuffer && 8 <= targetSize
      requires inboundOffset == (if first then 8 else 7) && inboundOffset <= |stream|
      requires stream[..7] == headerBuffer[..7] && (first ==> stream[7] == 0)
      modifies this`inboundBuffer, this`state
      ensures fresh(inboundBuffer) && inboundBuffer.Length == targetSize && state == BODY
      ensures inboundBuffer[..inboundOffset] == stream[..inboundOffset]
    {
      inboundBuffer := AllocateFrame(targetSize, first);
      forall i | 0 <= i < HEADER_SIZE {
        inboundBuffer[i] := headerBuffer[i];
      }
      state := BODY;
      assert forall i :: 0 <= i < 7 ==> stream[..7][i] == headerBuffer[..7][i];
    }

    /** The HEADER case: a complete header becomes the start of a frame buffer, which then takes
        what more of the frame there is.  `stream` is the frame so far and all data behind it. */
    method EnterBody(data: seq<byte>, first: bool, ghost stream: seq<byte>) returns (r: Result<nat, Status>)
      requires headerBuffer.Length == 8 && inboundBuffer == headerBuffer && frameMax < 0x8000_0000
      requires inboundOffset == (if first then 8 else 7)
      requires stream == headerBuffer[..7] + (if first then [0] else []) + data
      modifies this
      ensures frameMax == old(frameMax) && (inboundBuffer == headerBuffer || fresh(inboundBuffer))
      ensures match r
              case Failure(e) => Examine(codec, frameMax, stream) == Reject(e)
              case Success(n) =>
                && inboundOffset <= targetSize && inboundOffset == old(inboundOffset) + n && n <= |data|
                && (inboundOffset < targetSize ==>
                      n == |data| && Valid() && Reading() == Reader(false, stream)
                      && Examine(codec, frameMax, stream) == NeedMore)
                && (inboundOffset == targetSize ==> FrameComplete(stream))
    {
      hide Examine, D32;
      assert stream[..7] == headerBuffer[..7];
      DecodePrefix(headerBuffer[..7], stream, 3);
      ExamineBySize(codec, frameMax, stream);
      var size := D32(headerBuffer[..7], 3) + HEADER_SIZE + FOOTER_SIZE;
      if 0x1_0000_0000 <= size {
        return Failure(OutsideModel);
      }
      targetSize := size;
      if frameMax < targetSize {
        return Failure(BadAmqpData);
      }
      StartFrame(first, stream);
      var consumed := ConsumeData(data);
      assert inboundBuffer[..inboundOffset] == stream[..inboundOffset];
      assert inboundBuffer[..7] == inboundBuffer[..inboundOffset][..7] == stream[..7];
      DecodePrefix(inboundBuffer[..7], stream, 3);
      return Success(consumed);
    }

    /** The frame buffer holds the whole frame at the head of `stream`. */
    ghost predicate FrameComplete(stream: seq<byte>)
      reads this, inboundBuffer
    {
      && 7 <= |stream| && targetSize == D32(stream, 3) + 8
      && targetSize <= inboundBuffer.Length && targetSize <= |stream| && targetSize <= frameMax
      && inboundBuffer[..targetSize] == stream[..targetSize]
    }

    /** The BODY case: a complete frame buffer is checked and decoded. */
    method DecodeBody(ghost stream: seq<byte>) returns (r: Result<Option<Frame<M, P>>, Status>)
      requires headerBuffer.Length == 8 && frameMax < 0x8000_0000
      requires FrameComplete(stream)
      modifies this
      ensures frameMax == old(frameMax)
      ensures inboundBuffer == old(inboundBuffer) || inboundBuffer == headerBuffer
      ensures match Examine(codec, frameMax, stream)
              case Reject(e) => r == Failure(e)
              case Done(size, f) =>
                size == old(targetSize) && r == Success(f) && Valid() && Reading() == Reader(false, [])
              case NeedMore => false
    {
      var raw := inboundBuffer[..targetSize];
      if raw[targetSize - 1] != FRAME_END {
        return Failure(BadAmqpData);
      }
      var frame := None;
      match DecodePayload(codec, raw[0], raw[HEADER_SIZE..targetSize - FOOTER_SIZE]) {
        case Failure(e) => return Failure(e);
        case Success(None) =>
        case Success(Some(p)) => frame := Some(Frame(D16(raw, 1), p));
      }
      ReturnToIdle();
      return Success(frame);
    }

    /** The two cases in sequence, for a header that has just become complete. */
    method FinishHeader(data: seq<byte>, first: bool, ghost stream: seq<byte>)
      returns (r: Result<nat, Status>, frame: Option<Frame<M, P>>)
      requires headerBuffer.Length == 8 && inboundBuffer == headerBuffer && frameMax < 0x8000_0000
      requires inboundOffset == (if first then 8 else 7)
      requires stream == headerBuffer[..7] + (if first then [0] else []) + data
      modifies this
      ensures frameMax == old(frameMax) && (inboundBuffer == headerBuffer || fresh(inboundBuffer))
      ensures match Examine(codec, frameMax, stream)
              case NeedMore => r == Success(|data|) && frame == None && Valid() && Reading() == Reader(false, stream)
              case Reject(e) => r == Failure(e)
              case Done(size, f) =>
                && r == Success(size - old(inboundOffset)) && size <= |stream| && frame == f
                && Valid() && Reading() == Reader(false, [])
    {
      r := EnterBody(data, first, stream);
      frame := None;
      if r.Failure? || inboundOffset < targetSize {
        return;
      }
      var decoded := DecodeBody(stream);
      if decoded.Failure? {
        return Failure(decoded.error), frame;
      }
      frame := decoded.value;
    }

    /** What a call that saw `all`, of which `had` bytes were there before, leaves behind. */
    ghost predicate Handled(all: Reader, had: nat, r: Result<nat, Status>, frame: Option<Frame<M, P>>)
      reads this, headerBuffer, inboundBuffer
    {
      had <= |all.pending| &&
      match ExamineReader(codec, frameMax, all)
      case NeedMore => r == Success(|all.pending| - had) && frame == None && Valid() && Reading() == Settle(all)
      case Reject(e) => r == Failure(e)
      case Done(size, f) =>
        && had < size <= |all.pending| && r == Success(size - had) && frame == f
        && Valid() && Reading() == Reader(false, [])
    }

    /** Where the target has been met by `consumed` bytes of `data`: `all` is what has been read
        since the last frame and what is left of `data`, and `had` of it was there before. */
    ghost predicate TargetMet(data: seq<byte>, consumed: nat, all: Reader, had: nat)
      reads this, headerBuffer, inboundBuffer
    {
      && headerBuffer.Length == 8 && frameMax < 0x8000_0000 && had < targetSize
      && consumed <= |data| && had + consumed == inboundOffset == targetSize <= inboundBuffer.Length
      && |all.pending| == had + |data| && data[consumed..] == all.pending[inboundOffset..]
      && inboundBuffer[..inboundOffset] == all.pending[..inboundOffset]
      && (all.initial <==> state == INITIAL) && state != IDLE
      && (state == INITIAL ==> targetSize == 8) && (state == HEADER ==> targetSize == 7)
      && if state == BODY then FrameComplete(all.pending) else inboundBuffer == headerBuffer
    }

    /** The first eight bytes of a connection. */
    method DispatchInitial(data: seq<byte>, consumed: nat, ghost all: Reader, ghost had: nat)
      returns (r: Result<nat, Status>, frame: Option<Frame<M, P>>)
      requires TargetMet(data, consumed, all, had) && state == INITIAL
      modifies this
      ensures frameMax == old(frameMax) && (inboundBuffer == headerBuffer || fresh(inboundBuffer))
      ensures Handled(all, had, r, frame)
    {
      hide Examine;
      assert all.pending[..8] == headerBuffer[..8];
      if headerBuffer[0] == 'A' as int && headerBuffer[1] == 'M' as int
         && headerBuffer[2] == 'Q' as int && headerBuffer[3] == 'P' as int {
        frame := Some(Frame(0, ProtocolHeader(headerBuffer[4], headerBuffer[5], headerBuffer[6], headerBuffer[7])));
        ReturnToIdle();
        return Success(consumed), frame;
      }
      ghost var stream := all.pending[7 := 0];
      assert stream == headerBuffer[..7] + [0] + data[consumed..];
      assert !IsProtocolHeader(all.pending);
      r, frame := FinishHeader(data[consumed..], true, stream);
      if r.Success? {
        r := Success(consumed + r.value);
      }
    }

    /** The switch over the states. */
    method Dispatch(data: seq<byte>, consumed: nat, ghost all: Reader, ghost had: nat)
      returns (r: Result<nat, Status>, frame: Option<Frame<M, P>>)
      requires TargetMet(data, consumed, all, had)
      modifies this
      ensures frameMax == old(frameMax)
      ensures inboundBuffer == old(inboundBuffer) || inboundBuffer == headerBuffer || fresh(inboundBuffer)
      ensures Handled(all, had, r, frame)
    {
      hide Examine;
      if state == INITIAL {
        r, frame := DispatchInitial(data, consumed, all, had);
      } else if state == HEADER {
        assert all.pending == headerBuffer[..7] + [] + data[consumed..];
        r, frame := FinishHeader(data[consumed..], false, all.pending);
        if r.Success? {
          r := Success(consumed + r.value);
        }
      } else {
        var decoded := DecodeBody(all.pending);
        match decoded {
          case Failure(e) => return Failure(e), None;
          case Success(f) => return Success(consumed), f;
        }
      }
    }

    /** The start of amqp_handle_input: data is collected until the target is met. */
    method Collect(data: seq<byte>) returns (consumed: nat)
      requires Valid() && data != []
      modifies this, headerBuffer, inboundBuffer
      ensures frameMax == old(frameMax) && inboundBuffer == old(inboundBuffer)
      ensures var all, had := Extend(old(Reading()), data), |old(Reading()).pending|;
              if inboundOffset < targetSize then 0 < consumed <= |data| && Handled(all, had, Success(consumed), None)
              else TargetMet(data, consumed, all, had)
    {
      hide Examine, D32;
      ghost var before := Reading();
      ghost var all := Extend(before, data);
      assert state == BODY ==> before.pending[..7] == inboundBuffer[..7];
      if state == IDLE {
        state := HEADER;
      }
      consumed := ConsumeData(data);
      assert inboundBuffer[..inboundOffset] == all.pending[..inboundOffset];
      if state == BODY {
        assert inboundBuffer[..7] == before.pending[..7] == all.pending[..7];
        DecodePrefix(inboundBuffer[..7], all.pending, 3);
      }
      if inboundOffset < targetSize {
        assert data[..consumed] == data;
        ValidIsQuiescent();
      }
    }

    lemma HandledProgress(data: seq<byte>, all: Reader, had: nat, r: Result<nat, Status>, frame: Option<Frame<M, P>>)
      requires Handled(all, had, r, frame) && |all.pending| == had + |data| && r.Success? && data != []
      ensures Valid() && 0 < r.value <= |data|
    {
    }

    lemma NothingHandled()
      requires Valid()
      ensures Handled(Extend(Reading(), []), |Reading().pending|, Success(0), None)
    {
      ValidIsQuiescent();
      assert Extend(Reading(), []) == Reading();
    }

    /** amqp_handle_input: reads at most one frame and says how many bytes it took.  What it does is
        what the reference parser says of the bytes seen so far, and while they are too few or a
        frame is complete the invariant is kept. */
    method HandleInput(data: seq<byte>) returns (r: Result<nat, Status>, frame: Option<Frame<M, P>>)
      requires Valid()
      modifies this, headerBuffer, inboundBuffer
      ensures frameMax == old(frameMax)
      ensures inboundBuffer == old(inboundBuffer) || inboundBuffer == headerBuffer || fresh(inboundBuffer)
      ensures Handled(Extend(old(Reading()), data), |old(Reading()).pending|, r, frame)
      ensures r.Success? ==> Valid() && r.value <= |data| && (data != [] ==> 0 < r.value)
    {
      hide Handled, TargetMet;
      frame := None;
      if |data| == 0 {
        NothingHandled();
        return Success(0), frame;
      }
      ghost var all, had := Extend(Reading(), data), |Reading().pending|;
      var consumed := Collect(data);
      if inboundOffset < targetSize {
        r := Success(consumed);
      } else {
        r, frame := Dispatch(data, consumed, all, had);
      }
      if r.Success? {
        HandledProgress(data, all, had, r, frame);
      }
    }

    /** The caller loop prescribed for amqp_handle_input: call it, drop the bytes it took, repeat.
        It reads exactly the frames of the stream. */
    method Feed(data: seq<byte>) returns (frames: seq<Frame<M, P>>, error: Option<Status>)
      requires Valid()
      modifies this, headerBuffer, inboundBuffer
      ensures frameMax == old(frameMax)
      ensures inboundBuffer == old(inboundBuffer) || inboundBuffer == headerBuffer || fresh(inboundBuffer)
      ensures var p := Parse(codec, frameMax, Extend(old(Reading()), data));
              frames == p.frames && error == p.error && (error.None? ==> Valid() && Reading() == p.rest)
    {
      frames, error := [], None;
      var rest := data;
      ghost var whole := Parse(codec, frameMax, Extend(Reading(), data));
      assert whole == After([], whole);
      while rest != []
        invariant Valid() && frameMax == old(frameMax)
        invariant inboundBuffer == old(inboundBuffer) || inboundBuffer == headerBuffer || fresh(inboundBuffer)
        invariant whole == After(frames, Parse(codec, frameMax, Extend(Reading(), rest)))
        decreases |rest|
      {
        ghost var all, had := Extend(Reading(), rest), |Reading().pending|;
        var r, frame := HandleInput(rest);
        StepOfParse(all, had, rest, r, frame, frames);
        if r.Failure? {
          return frames, Some(r.error);
        }
        frames := frames + Opt(frame);
        rest := rest[r.value..];
      }
      ValidIsQuiescent();
      assert Extend(Reading(), []) == Reading();
    }

    /** One call turns the meaning of the stream into what was read and the meaning of the rest. */
    lemma StepOfParse(all: Reader, had: nat, data: seq<byte>, r: Result<nat, Status>, frame: Option<Frame<M, P>>,
                      read: seq<Frame<M, P>>)
      requires Handled(all, had, r, frame) && data == all.pending[had..]
      requires r.Success? ==> r.value <= |data|
      ensures var whole := After(read, Parse(codec, frameMax, all));
              match r
              case Failure(e) => whole.frames == read && whole.error == Some(e)
              case Success(n) => whole == After(read + Opt(frame), Parse(codec, frameMax, Extend(Reading(), data[n..])))
    {
      match ExamineReader(codec, frameMax, all)
      case NeedMore =>
        ValidIsQuiescent();
        assert Extend(Reading(), data[r.value..]) == Reading();
        assert read + Opt(frame) == read;
      case Reject(_) =>
      case Done(size, f) =>
        assert Extend(Reading(), data[r.value..]) == Reader(false, all.pending[size..]);
        AfterAfter(read, Opt(frame), Parse(codec, frameMax, Extend(Reading(), data[r.value..])));
    }

    /** A whole delivery, chunk after chunk: only the concatenation of the chunks matters. */
    method FeedAll(chunks: seq<seq<byte>>) returns (frames: seq<Frame<M, P>>, error: Option<Status>)
      requires Valid()
      modifies this, headerBuffer, inboundBuffer
      ensures frameMax == old(frameMax)
      ensures inboundBuffer == old(inboundBuffer) || inboundBuffer == headerBuffer || fresh(inboundBuffer)
      ensures var p := Parse(codec, frameMax, Extend(old(Reading()), Flatten(chunks)));
              frames == p.frames && error == p.error && (error.None? ==> Valid() && Reading() == p.rest)
    {
      hide Parse, Run, After;
      frames, error := [], None;
      ghost var start := Reading();
      ValidIsQuiescent();
      RunIsParse(codec, frameMax, start, chunks);
      ghost var whole := Run(codec, frameMax, start, chunks);
      RunEnds(codec, frameMax, start, chunks, []);
      var i := 0;
      while i < |chunks|
        invariant i <= |chunks| && Valid() && frameMax == old(frameMax)
        invariant inboundBuffer == old(inboundBuffer) || inboundBuffer == headerBuffer || fresh(inboundBuffer)
        invariant whole == After(frames, Run(codec, frameMax, Reading(), chunks[i..]))
      {
        RunNext(codec, frameMax, Reading(), chunks, i, frames);
        var more, e := Feed(chunks[i]);
        frames := frames + more;
        if e.Some? {
          return frames, e;
        }
        i := i + 1;
      }
      RunEnds(codec, frameMax, Reading(), chunks, frames);
    }

    /** In every state kept by the invariant the bytes seen so far are too few for a verdict. */
    lemma ValidIsQuiescent()
      requires Valid()
      ensures Quiescent(codec, frameMax, Reading())
    {
      var p := inboundBuffer[..inboundOffset];
      if state == BODY {
        assert p[..7] == inboundBuffer[..7];
        DecodePrefix(inboundBuffer[..7], p, 3);
      }
    }
  }
}

/** WebSocket framing of the client, section 5.2 of RFC 6455: the header it writes, the frames it
    reads out of a growing buffer, and what arbitrary splits of the stream do to them. */
module WebSocket {
  import opened Bytes

  const OP_CONTINUATION: byte := 0
  const OP_TEXT: byte := 1
  const OP_BINARY: byte := 2
  const OP_CLOSE: byte := 8
  const OP_PING: byte := 9
  const OP_PONG: byte := 10

  datatype Frame = Frame(opcode: byte, payload: seq<byte>)

  /** The opcodes whose payload is handed on. */
  predicate IsDataOpcode(op: byte) {
    op == OP_CONTINUATION || op == OP_TEXT || op == OP_BINARY || op == OP_PING || op == OP_PONG
  }

  /** One look at the front of the buffer. `Masked` is the branch that reports progress without
      removing anything; `Overflow` is a length whose end does not fit 64 bits, for which the whole
      buffer is handed out and only the wrapped sum is removed. */
  datatype Look =
    | NeedMore
    | Deliver(frame: Frame, rest: seq<byte>)
    | Failed(code: nat)
    | Masked
    | Overflow(frame: Frame, rest: seq<byte>)

  /** `parseheader`. */
  function ParseHeader(data: seq<byte>): (r: Look)
    ensures r.Deliver? ==> |r.rest| + |r.frame.payload| + 2 <= |data|
    ensures r.Overflow? ==> |r.rest| <= |data| && (|r.rest| == |data| ==> r.rest == data)
  {
    if |data| < 4 then NeedMore
    else
      var op := data[0] % 128;
      if IsDataOpcode(op) then
        if data[1] >= 128 then Masked
        else if data[1] == 126 then
          if |data| < 8 then NeedMore else Payload(op, data, 4, FromBigEndian(data[2..4]))
        else if data[1] == 127 then
          if |data| < 10 then NeedMore else Payload(op, data, 10, FromBigEndian(data[2..10]))
        else Payload(op, data, 2, data[1])
      else if op == OP_CLOSE then Failed(data[2] as int * 256 + data[3])
      else Failed(0)
  }

  function Payload(op: byte, data: seq<byte>, offset: nat, len: nat): (r: Look)
    requires 2 <= offset <= |data|
    ensures r.Deliver? ==> |r.rest| + |r.frame.payload| + 2 <= |data|
    ensures r.Overflow? ==> |r.rest| <= |data| && (|r.rest| == |data| ==> r.rest == data)
    ensures r.NeedMore? || r.Deliver? || r.Overflow?
  {
    var end := (offset + len) % TWO_64;
    if |data| < end then NeedMore
    else if end == offset + len then Deliver(Frame(op, data[offset..end]), data[end..])
    else Overflow(Frame(op, data[offset..]), data[end..])
  }

  /** What the drain loop hands out, what stays in the buffer, and the look that stopped it. */
  datatype Drained = Drained(frames: seq<Frame>, rest: seq<byte>, stop: Look)

  function Drain(data: seq<byte>): (r: Drained)
    ensures !r.stop.Deliver?
    decreases |data|
  {
    var l := ParseHeader(data);
    if l.Deliver? then
      var d := Drain(l.rest);
      Drained([l.frame] + d.frames, d.rest, d.stop)
    else Drained([], data, l)
  }

  /** No masked frame and no overflowing length comes up on this buffer. */
  predicate Clean(data: seq<byte>) {
    !Drain(data).stop.Masked? && !Drain(data).stop.Overflow?
  }

  /** The loop of `handle_buffer` ends on this buffer: no frame comes up that is left in place. */
  predicate Ends(data: seq<byte>)
    decreases |data|
  {
    var l := ParseHeader(data);
    if l.Deliver? then Ends(l.rest)
    else if l.Overflow? then |l.rest| < |data| && Ends(l.rest)
    else !l.Masked?
  }

  /** What that loop then leaves: the frames handed out, and the buffer. */
  function Outcome(data: seq<byte>): (r: (seq<Frame>, seq<byte>))
    requires Ends(data)
    decreases |data|
  {
    var l := ParseHeader(data);
    if l.Deliver? || l.Overflow? then
      var d := Outcome(l.rest);
      ([l.frame] + d.0, d.1)
    else ([], data)
  }

  /** Frames handed out so far and the buffer, after the reads `chunks`. */
  function FeedAll(frames: seq<Frame>, buffer: seq<byte>, chunks: seq<seq<byte>>): (r: (seq<Frame>, seq<byte>))
    decreases chunks
  {
    if chunks == [] then (frames, buffer)
    else
      var d := Drain(buffer + chunks[0]);
      FeedAll(frames + d.frames, d.rest, chunks[1..])
  }

  // ------------------------------------------------------------------- the client

  class WebSocketClient {
    var buffer: seq<byte>
    var handled: seq<Frame>
    var errors: seq<nat>

    constructor ()
      ensures buffer == [] && handled == [] && errors == []
    {
      buffer, handled, errors := [], [], [];
    }

    /** The end of the data branch: hand the payload out and remove the frame, if it is all there. */
    method TakeFrame(opcode: byte, offset: nat, len: nat) returns (again: bool)
      requires 2 <= offset <= |buffer|
      modifies this`buffer, this`handled
      ensures var l := Payload(opcode, old(buffer), offset, len);
              && (again <==> l.Deliver? || l.Overflow?)
              && buffer == (if again then l.rest else old(buffer))
              && handled == old(handled) + (if again then [l.frame] else [])
    {
      var end := (offset + len) % TWO_64;
      if |buffer| < end {
        return false;
      }
      var payload := if end == offset + len then buffer[offset..end] else buffer[offset..];
      handled := handled + [Frame(opcode, payload)];
      buffer := buffer[end..];
      return true;
    }

    /** `parseheader` on the connection's buffer. */
    method ParseHeaderStep() returns (again: bool)
      modifies this
      ensures var l := ParseHeader(old(buffer));
              && (again <==> l.Deliver? || l.Overflow? || l.Masked?)
              && buffer == (if l.Deliver? || l.Overflow? then l.rest else old(buffer))
              && handled == old(handled) + (if l.Deliver? || l.Overflow? then [l.frame] else [])
              && errors == old(errors) + (if l.Failed? then [l.code] else [])
    {
      if |buffer| < 4 {
        return false;
      }
      var opcode := buffer[0] % 128;
      if IsDataOpcode(opcode) {
        var len1 := buffer[1];
        if len1 >= 128 {
          return true;
        }
        var offset := 2;
        var len: nat := len1;
        if len1 == 126 {
          if |buffer| < 8 {
            return false;
          }
          len := FromBigEndian(buffer[2..4]);
          offset := offset + 2;
        } else if len1 == 127 {
          if |buffer| < 10 {
            return false;
          }
          len := FromBigEndian(buffer[2..10]);
          offset := offset + 8;
        }
        again := TakeFrame(opcode, offset, len);
        return;
      }
      if opcode == OP_CLOSE {
        errors := errors + [buffer[2] as int * 256 + buffer[3]];
      } else {
        errors := errors + [0];
      }
      return false;
    }

    /** One read from the socket: append, then `while (parseheader(buffer));`. */
    method HandleRead(read: seq<byte>)
      requires Ends(buffer + read)
      modifies this
      ensures buffer == Outcome(old(buffer) + read).1
      ensures handled == old(handled) + Outcome(old(buffer) + read).0
      ensures errors == old(errors) + (if ParseHeader(buffer).Failed? then [ParseHeader(buffer).code] else [])
    {
      hide ParseHeader;
      buffer := buffer + read;
      var again := true;
      ghost var got: seq<Frame> := [];
      assert [] + Outcome(buffer).0 == Outcome(buffer).0;
      while again
        invariant handled == old(handled) + got
        invariant Ends(buffer) && Outcome(old(buffer) + read) == (got + Outcome(buffer).0, Outcome(buffer).1)
        invariant !again ==> Outcome(buffer) == ([], buffer)
        invariant errors == old(errors) + (if !again && ParseHeader(buffer).Failed? then [ParseHeader(buffer).code] else [])
        decreases |buffer|, again
      {
        ghost var look := ParseHeader(buffer);
        ghost var more := if look.Deliver? || look.Overflow? then Outcome(look.rest).0 else [];
        again := ParseHeaderStep();
        if again {
          ConcatAssoc(got, [look.frame], more);
          ConcatAssoc(old(handled), got, [look.frame]);
          got := got + [look.frame];
        }
      }
      assert got + [] == got;
    }
  }

  // ------------------------------------------------------------- when the loop ends

  /** The loop stops within `n` turns. */
  predicate StopsWithin(n: nat, data: seq<byte>) {
    var l := ParseHeader(data);
    if l.NeedMore? || l.Failed? then true
    else n > 0 && StopsWithin(n - 1, if l.Masked? then data else l.rest)
  }

  /** `Ends` is exactly that the drain loop ends: a frame that is left in place comes up for ever. */
  lemma LoopEnds(data: seq<byte>)
    ensures Ends(data) <==> exists n: nat :: StopsWithin(n, data)
  {
    if Ends(data) {
      EndsStops(data);
    }
    if n: nat :| StopsWithin(n, data) {
      StopsEnds(n, data);
    }
  }

  lemma {:induction false} EndsStops(data: seq<byte>)
    requires Ends(data)
    ensures StopsWithin(|data|, data)
    decreases |data|
  {
    hide ParseHeader;
    var l := ParseHeader(data);
    if l.Deliver? || l.Overflow? {
      EndsStops(l.rest);
      StopsLater(|l.rest|, |data| - 1, l.rest);
    }
  }

  lemma {:induction false} StopsLater(n: nat, k: nat, data: seq<byte>)
    requires StopsWithin(n, data) && n <= k
    ensures StopsWithin(k, data)
    decreases n
  {
    hide ParseHeader;
    var l := ParseHeader(data);
    if !l.NeedMore? && !l.Failed? {
      StopsLater(n - 1, k - 1, if l.Masked? then data else l.rest);
    }
  }

  lemma {:induction false} StopsEnds(n: nat, data: seq<byte>)
    requires StopsWithin(n, data)
    ensures Ends(data)
    decreases n
  {
    hide ParseHeader;
    var l := ParseHeader(data);
    if l.Masked? || (l.Overflow? && |l.rest| == |data|) {
      StuckForever(n, data);
    } else if l.Deliver? || l.Overflow? {
      StopsEnds(n - 1, l.rest);
    }
  }

  lemma {:induction false} StuckForever(n: nat, data: seq<byte>)
    requires ParseHeader(data).Masked? || (ParseHeader(data).Overflow? && ParseHeader(data).rest == data)
    ensures !StopsWithin(n, data)
  {
    if n > 0 {
      StuckForever(n - 1, data);
    }
  }

  /** A clean buffer is drained to its end, as a sequence of whole frames. */
  lemma {:induction false} CleanEnds(data: seq<byte>)
    requires Clean(data)
    ensures Ends(data) && Outcome(data) == (Drain(data).frames, Drain(data).rest)
    decreases |data|
  {
    hide ParseHeader;
    if ParseHeader(data).Deliver? {
      CleanEnds(ParseHeader(data).rest);
    }
  }

  /** Short of overflowing lengths, `Clean` is exact. */
  lemma {:induction false} CleanExactly(data: seq<byte>)
    requires !Drain(data).stop.Overflow?
    ensures Clean(data) <==> Ends(data)
    decreases |data|
  {
    hide ParseHeader;
    if ParseHeader(data).Deliver? {
      CleanExactly(ParseHeader(data).rest);
    }
  }

  // -------------------------------------------------------------- split invariance

  /** More bytes behind a look that came to something do not change it. */
  lemma LookIsStable(data: seq<byte>, more: seq<byte>)
    requires !ParseHeader(data).NeedMore?
    ensures ParseHeader(data).Overflow? ==> |data| >= 10
    ensures ParseHeader(data + more) ==
            if ParseHeader(data).Deliver?
            then Deliver(ParseHeader(data).frame, ParseHeader(data).rest + more)
            else if ParseHeader(data).Overflow?
            then Overflow(Frame(data[0] % 128, data[10..] + more), ParseHeader(data).rest + more)
            else ParseHeader(data)
  {
    hide Payload, FromBigEndian;
    var all, op := data + more, data[0] % 128;
    assert all[0] == data[0] && all[1] == data[1] && all[2] == data[2] && all[3] == data[3];
    NoOverflow(op, data);
    if !IsDataOpcode(op) {
    } else if data[1] == 126 {
      assert all[2..4] == data[2..4];
      PayloadIsStable(op, data, more, 4, FromBigEndian(data[2..4]));
    } else if data[1] == 127 && |data| >= 10 {
      assert all[2..10] == data[2..10];
      PayloadIsStable(op, data, more, 10, FromBigEndian(data[2..10]));
    } else if data[1] < 126 {
      PayloadIsStable(op, data, more, 2, data[1]);
    }
  }

  lemma PayloadIsStable(op: byte, data: seq<byte>, more: seq<byte>, offset: nat, len: nat)
    requires 2 <= offset <= |data|
    ensures var r, r' := Payload(op, data, offset, len), Payload(op, data + more, offset, len);
            !r.NeedMore? ==> r' == if r.Deliver? then Deliver(r.frame, r.rest + more)
                                   else Overflow(Frame(op, data[offset..] + more), r.rest + more)
  {
    var all, end := data + more, (offset + len) % TWO_64;
    if end <= |data| {
      assert all[end..] == data[end..] + more;
      assert all[offset..] == data[offset..] + more;
      if end == offset + len {
        assert all[offset..end] == data[offset..end];
      }
    }
  }

  /** Only the 64-bit length form can overflow. */
  lemma NoOverflow(op: byte, data: seq<byte>)
    requires |data| >= 4
    ensures !Payload(op, data, 2, data[1]).Overflow? && !Payload(op, data, 4, FromBigEndian(data[2..4])).Overflow?
  {
    assert FromBigEndian(data[2..4]) < Pow256(2);
    Pow256Values();
  }

  /** Draining a longer stream continues where draining its front stopped. */
  lemma {:induction false} DrainContinues(data: seq<byte>, more: seq<byte>)
    ensures var d, e := Drain(data), Drain(Drain(data).rest + more);
            Drain(data + more) == Drained(d.frames + e.frames, e.rest, e.stop)
    decreases |data|
  {
    hide ParseHeader;
    var l := ParseHeader(data);
    if l.Deliver? {
      LookIsStable(data, more);
      DrainContinues(l.rest, more);
      ConcatAssoc([l.frame], Drain(l.rest).frames, Drain(Drain(l.rest).rest + more).frames);
    }
  }

  lemma CleanPrefix(data: seq<byte>, more: seq<byte>)
    requires Clean(data + more)
    ensures Clean(data) && Clean(Drain(data).rest + more)
  {
    hide ParseHeader;
    DrainContinues(data, more);
    DrainStops(data);
    var rest := Drain(data).rest;
    if !ParseHeader(rest).NeedMore? {
      LookIsStable(rest, more);
    }
  }

  lemma {:induction false} DrainStops(data: seq<byte>)
    ensures ParseHeader(Drain(data).rest) == Drain(data).stop
    decreases |data|
  {
    hide ParseHeader;
    if ParseHeader(data).Deliver? {
      DrainStops(ParseHeader(data).rest);
    }
  }

  /** Read-split invariance: however the stream is cut into reads, the frames handed out and the
      left-over buffer are those of one single read, and every read finds the buffer clean, so that
      the loop ends on each (`CleanEnds`). */
  lemma {:induction false} SplitInvariance(frames: seq<Frame>, buffer: seq<byte>, chunks: seq<seq<byte>>)
    requires Clean(buffer + Flatten(chunks)) && Drain(buffer) == Drained([], buffer, ParseHeader(buffer))
    ensures var d := Drain(buffer + Flatten(chunks));
            FeedAll(frames, buffer, chunks) == (frames + d.frames, d.rest)
    ensures forall i :: 0 <= i < |chunks| ==> Clean(FeedAll(frames, buffer, chunks[..i]).1 + chunks[i])
    decreases chunks
  {
    hide ParseHeader;
    if chunks == [] {
      assert buffer + Flatten(chunks) == buffer;
      assert frames + [] == frames;
    } else {
      var first, tail := buffer + chunks[0], Flatten(chunks[1..]);
      ConcatAssoc(buffer, chunks[0], tail);
      DrainContinues(first, tail);
      CleanPrefix(first, tail);
      var d := Drain(first);
      DrainStops(first);
      assert Drain(d.rest) == Drained([], d.rest, ParseHeader(d.rest));
      SplitInvariance(frames + d.frames, d.rest, chunks[1..]);
      ConcatAssoc(frames, d.frames, Drain(d.rest + tail).frames);
      hide Clean, Drain;
      forall i | 0 <= i < |chunks|
        ensures Clean(FeedAll(frames, buffer, chunks[..i]).1 + chunks[i])
      {
        if i > 0 {
          assert chunks[..i][1..] == chunks[1..][..i - 1];
          assert chunks[i] == chunks[1..][i - 1];
        }
      }
    }
  }

  // ------------------------------------------------------------- well-formed streams

  /** A frame from the server, as section 5.2 of RFC 6455 lays it out: unmasked, with the shortest
      length form. */
  function Wire(fin: bool, f: Frame): (s: seq<byte>)
    requires IsDataOpcode(f.opcode)
    ensures |s| >= 2 + |f.payload|
  {
    var n := |f.payload|;
    [(if fin then 128 else 0) + f.opcode]
    + (if n <= 125 then [n] else if n <= 65535 then [126] + ToBigEndian(2, n) else [127] + ToBigEndian(8, n))
    + f.payload
  }

  /** Continuation, text, binary, ping and pong frames of less than 2^63 bytes. */
  predicate Sendable(f: Frame)
    ensures Sendable(f) ==> IsDataOpcode(f.opcode)
  {
    f.opcode in {0, 1, 2, 9, 10} && |f.payload| < 0x8000_0000_0000_0000
  }

  /** The other things that can stand at the front: too few bytes, a masked frame, a close frame with
      its code, an opcode that means nothing. */
  lemma OtherLooks(data: seq<byte>)
    ensures |data| < 4 ==> ParseHeader(data) == NeedMore
    ensures |data| >= 4 ==>
              var op := data[0] % 128;
              && (op in {0, 1, 2, 9, 10} && data[1] >= 128 ==> ParseHeader(data) == Masked)
              && (op in {0, 1, 2, 9, 10} && data[1] == 126 && |data| < 8 ==> ParseHeader(data) == NeedMore)
              && (op in {0, 1, 2, 9, 10} && data[1] == 127 && |data| < 10 ==> ParseHeader(data) == NeedMore)
              && (op == 8 ==> ParseHeader(data) == Failed(256 * (data[2] as int) + data[3]))
              && (op !in {0, 1, 2, 8, 9, 10} ==> ParseHeader(data) == Failed(0))
  {
    hide FromBigEndian, Payload;
  }

  /** A length in a longer form than needed is read all the same, once eight bytes are there. */
  lemma LongForm(op: byte, payload: seq<byte>, rest: seq<byte>)
    requires op in {0, 1, 2, 9, 10} && |payload| < 0x1_0000 && |payload| + |rest| >= 4
    ensures ParseHeader([op, 126, |payload| / 256, |payload| % 256] + payload + rest) == Deliver(Frame(op, payload), rest)
  {
    hide Payload, FromBigEndian;
    var n := |payload|;
    var header := [op, 126, n / 256, n % 256];
    var data := header + payload + rest;
    assert data[2..4] == [n / 256, n % 256];
    TwoByteField(n / 256, n % 256);
    PayloadReads(Frame(op, payload), header, rest);
  }

  lemma TwoByteField(a: byte, b: byte)
    ensures FromBigEndian([a, b]) == 256 * (a as int) + b
  {
    assert [a, b][..1] == [a] && [a][..0] == [];
  }

  /** A length so large that its end wraps round: everything behind the header is handed out, and what
      the wrapped sum says is removed, which may be nothing. */
  lemma WrappingLength(op: byte, w: nat, rest: seq<byte>)
    requires op in {0, 1, 2, 9, 10} && w < 10
    ensures var data := [op, 127, 255, 255, 255, 255, 255, 255, 255, 246 + w] + rest;
            ParseHeader(data) == Overflow(Frame(op, rest), data[w..])
  {
    hide FromBigEndian, Payload;
    var field: seq<byte> := [255, 255, 255, 255, 255, 255, 255, 246 + w];
    var data := [op, 127] + field + rest;
    assert [op, 127, 255, 255, 255, 255, 255, 255, 255, 246 + w] + rest == data;
    assert data[2..10] == field && data[10..] == rest;
    LargestFields(w);
    PayloadWraps(op, data, w);
  }

  lemma PayloadWraps(op: byte, data: seq<byte>, w: nat)
    requires |data| >= 10 && w < 10
    ensures Payload(op, data, 10, 0x1_0000_0000_0000_0000 - 10 + w) == Overflow(Frame(op, data[10..]), data[w..])
  {
  }

  lemma LargestFields(w: nat)
    requires w < 10
    ensures FromBigEndian([255, 255, 255, 255, 255, 255, 255, 246 + w]) == 0x1_0000_0000_0000_0000 - 10 + w
  {
    hide FromBigEndian;
    AllOnes(7);
    var s: seq<byte> := [255, 255, 255, 255, 255, 255, 255, 246 + w];
    assert s[..7] == seq(7, i => 255);
    LastByte(s);
    Pow256Values();
    assert Pow256(8) == 256 * Pow256(7);
  }

  lemma LastByte(s: seq<byte>)
    requires s != []
    ensures FromBigEndian(s) == FromBigEndian(s[..|s| - 1]) * 256 + s[|s| - 1]
  {
  }

  lemma {:induction false} AllOnes(k: nat)
    ensures FromBigEndian(seq(k, i => 255)) == Pow256(k) - 1
  {
    if k > 0 {
      AllOnes(k - 1);
      assert seq(k, i => 255)[..k - 1] == seq(k - 1, i => 255);
    }
  }

  function WireAll(fins: seq<bool>, fs: seq<Frame>): (s: seq<byte>)
    requires |fins| == |fs| && forall i :: 0 <= i < |fs| ==> Sendable(fs[i])
    ensures |s| >= 2 * |fs|
  {
    if fs == [] then [] else assert Sendable(fs[0]); Wire(fins[0], fs[0]) + WireAll(fins[1..], fs[1..])
  }

  lemma WireReads(fin: bool, f: Frame, rest: seq<byte>)
    requires Sendable(f)
    ensures |Wire(fin, f) + rest| >= 4 ==> ParseHeader(Wire(fin, f) + rest) == Deliver(f, rest)
    ensures |Wire(fin, f) + rest| < 4 ==> ParseHeader(Wire(fin, f) + rest) == NeedMore
  {
    hide Payload, FromBigEndian, ToBigEndian;
    var n := |f.payload|;
    var b0 := (if fin then 128 else 0) + f.opcode;
    Pow256Values();
    if n <= 125 {
      PayloadReads(f, [b0, n], rest);
    } else if n <= 65535 {
      BigEndianField(2, n, f.payload + rest);
      HeaderField(b0, 126, ToBigEndian(2, n), f.payload, rest);
      PayloadReads(f, [b0, 126] + ToBigEndian(2, n), rest);
    } else {
      BigEndianField(8, n, f.payload + rest);
      HeaderField(b0, 127, ToBigEndian(8, n), f.payload, rest);
      PayloadReads(f, [b0, 127] + ToBigEndian(8, n), rest);
    }
    WireShape(fin, f);
  }

  lemma WireShape(fin: bool, f: Frame)
    requires IsDataOpcode(f.opcode)
    ensures var n, b0 := |f.payload|, (if fin then 128 else 0) + f.opcode;
            Wire(fin, f) == (if n <= 125 then [b0, n] else if n <= 65535 then [b0, 126] + ToBigEndian(2, n)
                             else [b0, 127] + ToBigEndian(8, n)) + f.payload
  {
    hide ToBigEndian;
  }

  lemma HeaderField(b0: byte, b1: byte, field: seq<byte>, payload: seq<byte>, rest: seq<byte>)
    ensures ([b0, b1] + field + payload + rest)[2..2 + |field|] == field
    ensures (field + (payload + rest))[..|field|] == field
  {
    ConcatAssoc([b0, b1] + field, payload, rest);
    ConcatAssoc([b0, b1], field, payload + rest);
  }

  lemma PayloadReads(f: Frame, header: seq<byte>, rest: seq<byte>)
    requires |header| >= 2 && |header| + |f.payload| < TWO_64
    ensures Payload(f.opcode, header + f.payload + rest, |header|, |f.payload|) == Deliver(f, rest)
  {
    var s := header + f.payload + rest;
    ConcatAssoc(header, f.payload, rest);
    assert s[|header|..|header| + |f.payload|] == f.payload;
    assert s[|header| + |f.payload|..] == rest;
  }

  /** A stream of frames is handed out completely, except that a last frame of fewer than two
      payload bytes waits in the buffer: four bytes are wanted before anything is looked at. */
  lemma {:induction false} StreamDelivered(fins: seq<bool>, fs: seq<Frame>)
    requires |fins| == |fs| && forall i :: 0 <= i < |fs| ==> Sendable(fs[i])
    ensures var last := |fs| - 1;
            Drain(WireAll(fins, fs)) ==
            if fs == [] || |fs[last].payload| >= 2 then Drained(fs, [], NeedMore)
            else Drained(fs[..last], Wire(fins[last], fs[last]), NeedMore)
  {
    hide ParseHeader, Wire;
    if fs == [] {
      EmptyLook();
    } else {
      var rest := WireAll(fins[1..], fs[1..]);
      WireReads(fins[0], fs[0], rest);
      WireLength(fins[0], fs[0]);
      StreamDelivered(fins[1..], fs[1..]);
      if |fs| == 1 {
        EmptyLook();
        assert Wire(fins[0], fs[0]) + rest == Wire(fins[0], fs[0]);
        assert fs[..0] == [];
        if |fs[0].payload| >= 2 {
          assert [fs[0]] + [] == fs;
        }
      } else {
        assert [fs[0]] + fs[1..] == fs && [fs[0]] + fs[1..][..|fs| - 2] == fs[..|fs| - 1];
      }
    }
  }

  /** So a single empty ping is not answered until something follows it. */
  lemma EmptyPingWaits()
    ensures Drain(Wire(true, Frame(OP_PING, []))) == Drained([], [137, 0], NeedMore)
  {
  }

  lemma EmptyLook()
    ensures ParseHeader([]) == NeedMore
  {
  }

  lemma WireLength(fin: bool, f: Frame)
    requires IsDataOpcode(f.opcode)
    ensures |f.payload| < 2 ==> |Wire(fin, f)| == 2 + |f.payload|
  {
  }

  /** The two together: any split of any well-formed stream into reads hands out its frames in
      order, and keeps back at most one tiny last frame. */
  lemma AnySplitDelivers(fins: seq<bool>, fs: seq<Frame>, chunks: seq<seq<byte>>)
    requires |fins| == |fs| && forall i :: 0 <= i < |fs| ==> Sendable(fs[i])
    requires Flatten(chunks) == WireAll(fins, fs)
    ensures var last := |fs| - 1;
            FeedAll([], [], chunks) ==
            if fs == [] || |fs[last].payload| >= 2 then (fs, []) else (fs[..last], Wire(fins[last], fs[last]))
  {
    hide ParseHeader, Wire, FeedAll;
    StreamDelivered(fins, fs);
    EmptyLook();
    assert [] + Flatten(chunks) == WireAll(fins, fs);
    SplitInvariance([], [], chunks);
    var frames := Drain(WireAll(fins, fs)).frames;
    assert [] + frames == frames;
  }

  // -------------------------------------------------------------------- sending

  /** The header of a client frame: final, masked with the zero key. */
  function Header(len: nat, op: byte): (s: seq<byte>)
    requires op < 128
    ensures 6 <= |s| <= 14
  {
    [128 + op]
    + (if len <= 125 then [128 + len] else if len <= 65535 then [254] + ToBigEndian(2, len) else [255] + ToBigEndian(8, len))
    + [0, 0, 0, 0]
  }

  /** The array that callers of `fill_header` pass. */
  const MAXHEADERSIZE: nat := 10

  /** It has room for the header exactly up to the 16-bit length form. */
  lemma HeaderRoom(len: nat, op: byte)
    requires op < 128
    ensures |Header(len, op)| <= MAXHEADERSIZE <==> len <= 65535
  {
    hide ToBigEndian;
    HeaderShape(len, op);
  }

  /** `fill_header`. The header needs up to 14 bytes of room. */
  method FillHeader(outbuf: array<byte>, sendlength: nat, opcode: byte) returns (pos: nat)
    requires opcode < 128 && sendlength < TWO_64 && outbuf.Length >= |Header(sendlength, opcode)|
    modifies outbuf
    ensures pos == |Header(sendlength, opcode)| && outbuf[..pos] == Header(sendlength, opcode)
    ensures outbuf[pos..] == old(outbuf[pos..])
  {
    hide ToBigEndian, Header;
    HeaderShape(sendlength, opcode);
    outbuf[0] := 128 + opcode;
    if sendlength <= 125 {
      outbuf[1] := sendlength;
      pos := 2;
    } else if sendlength <= 65535 {
      outbuf[1] := 126;
      outbuf[2] := sendlength / 256 % 256;
      outbuf[3] := sendlength % 256;
      pos := 4;
      TwoBytes(sendlength);
    } else {
      outbuf[1] := 127;
      pos := FillLength(outbuf, sendlength);
      assert outbuf[..2] == [128 + opcode, 127];
    }
    ghost var b1, length := outbuf[1], outbuf[2..pos];
    FillMask(outbuf, pos);
    assert outbuf[..2] == [128 + opcode, b1 + 128] && outbuf[2..pos] == length;
    assert outbuf[..pos] == outbuf[..2] + outbuf[2..pos];
    assert outbuf[..pos + 4] == outbuf[..pos] + outbuf[pos..pos + 4];
    pos := pos + 4;
  }

  /** The mask bit and the zero key. */
  method FillMask(outbuf: array<byte>, pos: nat)
    requires 2 <= pos && pos + 4 <= outbuf.Length && outbuf[1] < 128
    modifies outbuf
    ensures outbuf[0] == old(outbuf[0]) && outbuf[1] == old(outbuf[1]) + 128
    ensures outbuf[2..pos] == old(outbuf[2..pos]) && outbuf[pos..pos + 4] == [0, 0, 0, 0]
    ensures outbuf[pos + 4..] == old(outbuf[pos + 4..])
  {
    outbuf[1] := outbuf[1] + 128;
    outbuf[pos] := 0;
    outbuf[pos + 1] := 0;
    outbuf[pos + 2] := 0;
    outbuf[pos + 3] := 0;
  }

  lemma TwoBytes(n: nat)
    ensures ToBigEndian(2, n) == [n / 256 % 256, n % 256]
  {
    assert ToBigEndian(1, n / 256) == ToBigEndian(0, n / 256 / 256) + [n / 256 % 256];
  }

  /** The 64-bit length, most significant byte first, from the third byte on. */
  method FillLength(outbuf: array<byte>, len: nat) returns (pos: nat)
    requires outbuf.Length >= 10
    modifies outbuf
    ensures pos == 10 && outbuf[2..10] == ToBigEndian(8, len)
    ensures outbuf[..2] == old(outbuf[..2]) && outbuf[10..] == old(outbuf[10..])
  {
    hide ToBigEndian, Pow256;
    pos := 2;
    var i := 7;
    while i >= 0
      invariant -1 <= i <= 7 && pos == 9 - i
      invariant outbuf[..2] == old(outbuf[..2])
      invariant forall j :: 2 <= j < pos ==> outbuf[j] == ToBigEndian(8, len)[j - 2]
      invariant outbuf[10..] == old(outbuf[10..])
    {
      BigEndianByte(8, len, pos - 2);
      outbuf[pos] := len / Pow256(i) % 256;
      pos := pos + 1;
      i := i - 1;
    }
  }

  lemma {:induction false} BigEndianByte(k: nat, n: nat, j: nat)
    requires j < k
    ensures ToBigEndian(k, n)[j] == n / Pow256(k - 1 - j) % 256
    decreases k
  {
    if j < k - 1 {
      BigEndianByte(k - 1, n / 256, j);
      DivDiv(n, Pow256(k - 2 - j));
    }
  }

  lemma DivDiv(n: nat, p: nat)
    requires p > 0
    ensures n / 256 / p == n / (256 * p)
  {
    ModStep(n, p);
    var q, r := n / 256 / p, n / 256 % p * 256 + n % 256;
    assert n == (256 * p) * (n / (256 * p)) + n % (256 * p);
    assert n / 256 == p * q + n / 256 % p;
    assert n == 256 * (n / 256) + n % 256;
    assert n == q * (256 * p) + r;
    assert 0 <= r < 256 * p;
    DivModUnique(n, 256 * p, q, r);
  }

  /** How a server that follows section 5.3 of RFC 6455 reads a client frame: header, mask, payload. */
  datatype Incoming = Incoming(fin: bool, opcode: byte, payload: seq<nat>, used: nat)

  /** Exclusive or of two numbers, bit by bit. */
  function Xor(a: nat, b: nat): (r: nat)
    decreases a + b
  {
    if a == 0 && b == 0 then 0 else 2 * Xor(a / 2, b / 2) + (a + b) % 2
  }

  function Unmask(p: seq<byte>, key: seq<byte>): (r: seq<nat>)
    requires |key| == 4
    ensures |r| == |p|
  {
    seq(|p|, i requires 0 <= i < |p| => Xor(p[i], key[i % 4]))
  }

  function ServerReads(s: seq<byte>): (r: Option<Incoming>) {
    if |s| < 2 || s[1] < 128 then None
    else
      var short := s[1] - 128;
      var w := if short == 126 then 2 else if short == 127 then 8 else 0;
      if |s| < 2 + w + 4 then None
      else
        var len := if w == 0 then short else FromBigEndian(s[2..2 + w]);
        var at := 2 + w + 4;
        if |s| < at + len then None
        else Some(Incoming(s[0] >= 128, s[0] % 128, Unmask(s[at..at + len], s[2 + w..at]), at + len))
  }

  lemma ZeroMask(p: seq<byte>)
    ensures Unmask(p, [0, 0, 0, 0]) == p
  {
    forall i | 0 <= i < |p|
      ensures Unmask(p, [0, 0, 0, 0])[i] == p[i]
    {
      XorZero(p[i]);
    }
  }

  lemma {:induction false} XorZero(x: nat)
    ensures Xor(x, 0) == x
  {
    if x > 0 {
      XorZero(x / 2);
    }
  }

  /** What the client sends is what a conforming server receives. */
  lemma ServerGetsPayload(op: byte, payload: seq<byte>, rest: seq<byte>)
    requires op < 128 && |payload| < TWO_64
    ensures ServerReads(Header(|payload|, op) + payload + rest)
            == Some(Incoming(true, op, payload, |Header(|payload|, op)| + |payload|))
  {
    hide Unmask, ServerReads, ToBigEndian;
    var n := |payload|;
    Pow256Values();
    if n <= 125 {
      ServerReadsFrame(op, 128 + n, [], payload, rest);
    } else if n <= 65535 {
      BigEndianField(2, n, []);
      assert (ToBigEndian(2, n) + [])[..2] == ToBigEndian(2, n);
      ServerReadsFrame(op, 254, ToBigEndian(2, n), payload, rest);
    } else {
      BigEndianField(8, n, []);
      assert (ToBigEndian(8, n) + [])[..8] == ToBigEndian(8, n);
      ServerReadsFrame(op, 255, ToBigEndian(8, n), payload, rest);
    }
    HeaderShape(n, op);
  }

  lemma HeaderShape(n: nat, op: byte)
    requires op < 128
    ensures n <= 125 ==> Header(n, op) == [128 + op, 128 + n] + [] + [0, 0, 0, 0]
    ensures 125 < n <= 65535 ==> Header(n, op) == [128 + op, 254] + ToBigEndian(2, n) + [0, 0, 0, 0]
    ensures n > 65535 ==> Header(n, op) == [128 + op, 255] + ToBigEndian(8, n) + [0, 0, 0, 0]
  {
    hide ToBigEndian;
  }

  lemma ServerReadsFrame(op: byte, b1: byte, field: seq<byte>, payload: seq<byte>, rest: seq<byte>)
    requires op < 128 && b1 >= 128
    requires |field| == if b1 == 254 then 2 else if b1 == 255 then 8 else 0
    requires |payload| == if field == [] then b1 - 128 else FromBigEndian(field)
    ensures ServerReads([128 + op, b1] + field + [0, 0, 0, 0] + payload + rest)
            == Some(Incoming(true, op, payload, 6 + |field| + |payload|))
  {
    hide Unmask, FromBigEndian;
    var zero: seq<byte> := [0, 0, 0, 0];
    var front, tail := [128 + op, b1], payload + rest;
    var s := front + field + zero + payload + rest;
    var w, at := |field|, 6 + |field|;
    ZeroMask(payload);
    ConcatAssoc(front + field + zero, payload, rest);
    ConcatAssoc(front + field, zero, tail);
    ConcatAssoc(front, field, zero + tail);
    assert s == front + (field + (zero + tail));
    assert s[2..2 + w] == field;
    assert s[2 + w..] == zero + tail;
    assert s[2 + w..at] == zero;
    assert s[at..] == tail;
    assert s[at..at + |payload|] == payload;
  }
}

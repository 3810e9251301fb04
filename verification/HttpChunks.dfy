/** Chunked transfer decoding of the HTTP client, section 7.1 of RFC 9112: a state machine that may
    be stopped and resumed between any two bytes. */
module HttpChunks {
  import opened Bytes

  const CR: byte := 13
  const LF: byte := 10
  const CRLF: seq<byte> := [13, 10]

  /** The states of `http_state` that a chunked body goes through. */
  datatype ChunkState = ChunkLen | ChunkContent | ChunkTrailer | ChunkLast | Finished

  /** The fields of `https_client` that the body changes, and the input buffer. `ended` means that
      `handle_buffer` has returned false, after which the connection reads no more. */
  datatype Client = Client(
    state: ChunkState, body: seq<byte>, chunkSize: nat, chunkReceive: nat, buffer: seq<byte>, ended: bool)

  const Start: Client := Client(ChunkLen, [], 0, 0, [], false)

  // ------------------------------------------------------------------ text helpers

  /** `buffer.find("\r\n")`. */
  function FindCrlf(s: seq<byte>): (r: Option<nat>)
    ensures r.Some? ==> r.value + 2 <= |s| && s[r.value] == CR && s[r.value + 1] == LF
  {
    if |s| < 2 then None
    else if s[0] == CR && s[1] == LF then Some(0)
    else
      var r := FindCrlf(s[1..]);
      if r.Some? then Some(r.value + 1) else None
  }

  /** The value of a hexadecimal digit. */
  function HexDigit(c: byte): (r: Option<nat>)
    ensures r.Some? ==> r.value < 16
  {
    if 48 <= c <= 57 then Some(c - 48)
    else if 65 <= c <= 70 then Some(c - 55)
    else if 97 <= c <= 102 then Some(c - 87)
    else None
  }

  predicate IsHex(c: byte) { HexDigit(c).Some? }

  predicate IsSpace(c: byte) { c == 32 || 9 <= c <= 13 }

  function SkipSpace(s: seq<byte>): (r: seq<byte>) {
    if s != [] && IsSpace(s[0]) then SkipSpace(s[1..]) else s
  }

  /** The longest run of hexadecimal digits at the front. */
  function HexFront(s: seq<byte>): (r: seq<byte>)
    ensures |r| <= |s| && forall i :: 0 <= i < |r| ==> IsHex(r[i])
  {
    if s != [] && IsHex(s[0]) then [s[0]] + HexFront(s[1..]) else []
  }

  function HexValue(s: seq<byte>): (n: nat)
    requires forall i :: 0 <= i < |s| ==> IsHex(s[i])
  {
    if s == [] then 0 else assert IsHex(s[|s| - 1]); HexValue(s[..|s| - 1]) * 16 + HexDigit(s[|s| - 1]).value
  }

  function AfterSign(t: seq<byte>): (r: seq<byte>) {
    if t != [] && (t[0] == 45 || t[0] == 43) then t[1..] else t
  }

  function AfterPrefix(u: seq<byte>): (r: seq<byte>) {
    if |u| >= 3 && u[0] == 48 && (u[1] == 120 || u[1] == 88) && IsHex(u[2]) then u[2..] else u
  }

  /** `std::stoi(s, &index, 16)`: space, sign, an optional 0x before a digit, digits, and anything
      after them; no digits or a value outside `int` throws. */
  function Stoi16(s: seq<byte>): (r: Option<int>)
    ensures r.Some? ==> -0x8000_0000 <= r.value < 0x8000_0000
  {
    var t := SkipSpace(s);
    var negative := t != [] && t[0] == 45;
    var digits := HexFront(AfterPrefix(AfterSign(t)));
    if digits == [] then None
    else
      var n := HexValue(digits);
      var m: int := if negative then -1 * n else n;
      if -0x8000_0000 <= m < 0x8000_0000 then Some(m) else None
  }

  // ---------------------------------------------------------------- the machine

  /** How one pass through the `switch` ends: with `state_changed`, waiting for input, or returning
      false. */
  datatype Turned = Again(c: Client) | Wait(c: Client) | End(c: Client)

  function Turn(c: Client): (r: Turned) {
    match c.state
    case ChunkContent =>
      var toRead := if c.chunkReceive + |c.buffer| > c.chunkSize && c.chunkReceive <= c.chunkSize
                    then c.chunkSize - c.chunkReceive else |c.buffer|;
      var c' := c.(body := c.body + c.buffer[..toRead], chunkReceive := c.chunkReceive + toRead,
                   buffer := c.buffer[toRead..]);
      if c'.chunkReceive >= c'.chunkSize then Again(c'.(state := ChunkTrailer)) else Wait(c')
    case ChunkTrailer =>
      if |c.buffer| >= 2 && c.buffer[..2] == CRLF then Again(c.(state := ChunkLen, buffer := c.buffer[2..]))
      else Wait(c)
    case ChunkLast =>
      if |c.buffer| >= 2 && c.buffer[..2] == CRLF then End(c.(state := Finished, ended := true)) else Wait(c)
    case ChunkLen =>
      var p := FindCrlf(c.buffer);
      if p.None? then Wait(c)
      else
        var size := Stoi16(c.buffer[..p.value]);
        var c' := c.(chunkReceive := 0, buffer := c.buffer[p.value + 2..]);
        if size.None? then End(c'.(ended := true))
        else if size.value == 0 then Again(c'.(state := ChunkLast, chunkSize := 2))
        else Again(c'.(state := ChunkContent, chunkSize := size.value % TWO_64))
    case Finished => End(c.(ended := true))
  }

  /** No chunk is filled beyond its size. */
  predicate Inv(c: Client) {
    c.chunkReceive <= c.chunkSize
  }

  function Rank(s: ChunkState): (r: nat) {
    if s == ChunkContent then 1 else 0
  }

  lemma TurnProgress(c: Client)
    requires Inv(c)
    ensures Inv(Turn(c).c)
    ensures Turn(c).Again? ==> |Turn(c).c.buffer| < |c.buffer|
                               || (|Turn(c).c.buffer| == |c.buffer| && Rank(Turn(c).c.state) < Rank(c.state))
  {
  }

  /** The do-while loop. It ends: every pass that changes the state uses up input, or leaves the
      content state. */
  function Run(c: Client): (r: Client)
    requires Inv(c)
    ensures Inv(r)
    decreases |c.buffer|, Rank(c.state)
  {
    TurnProgress(c);
    match Turn(c)
    case Again(c') => Run(c')
    case Wait(c') => c'
    case End(c') => c'
  }

  /** One read from the connection. */
  function Feed(c: Client, read: seq<byte>): (r: Client)
    requires Inv(c)
    ensures Inv(r)
  {
    if c.ended then c else Run(c.(buffer := c.buffer + read))
  }

  function FeedAll(c: Client, chunks: seq<seq<byte>>): (r: Client)
    requires Inv(c)
    ensures Inv(r)
    decreases chunks
  {
    if chunks == [] then c else FeedAll(Feed(c, chunks[0]), chunks[1..])
  }

  /** The same outcome: all fields, and the buffer too while the connection still reads. */
  predicate Same(a: Client, b: Client) {
    && a.state == b.state && a.body == b.body && a.chunkSize == b.chunkSize && a.chunkReceive == b.chunkReceive
    && a.ended == b.ended && (!a.ended ==> a.buffer == b.buffer)
  }

  // ------------------------------------------------------------------- the client

  class HttpsClient {
    var state: ChunkState
    var body: seq<byte>
    var chunkSize: nat
    var chunkReceive: nat

    ghost function View(buffer: seq<byte>, ended: bool): (c: Client)
      reads this
    {
      Client(state, body, chunkSize, chunkReceive, buffer, ended)
    }

    constructor ()
      ensures View([], false) == Start
    {
      state, body, chunkSize, chunkReceive := ChunkLen, [], 0, 0;
    }

    /** The body of the do-while loop. */
    method HandleOnce(input: seq<byte>) returns (buffer: seq<byte>, changed: bool, ok: bool)
      requires chunkReceive <= chunkSize
      modifies this
      ensures match Turn(old(View(input, false)))
              case Again(c) => changed && ok && View(buffer, false) == c
              case Wait(c) => !changed && ok && View(buffer, false) == c
              case End(c) => !ok && View(buffer, true) == c
    {
      hide Stoi16, FindCrlf;
      buffer, changed, ok := input, false, true;
      match state
      case ChunkContent =>
        var toRead := |buffer|;
        if chunkReceive + |buffer| > chunkSize {
          toRead := chunkSize - chunkReceive;
        }
        body := body + buffer[..toRead];
        chunkReceive := chunkReceive + toRead;
        buffer := buffer[toRead..];
        if chunkReceive >= chunkSize {
          state := ChunkTrailer;
          changed := true;
        }
      case ChunkTrailer =>
        if |buffer| >= 2 && buffer[..2] == CRLF {
          state := ChunkLen;
          buffer := buffer[2..];
          changed := true;
        }
      case ChunkLast =>
        if |buffer| >= 2 && buffer[..2] == CRLF {
          state := Finished;
          ok := false;
        }
      case ChunkLen =>
        var p := FindCrlf(buffer);
        if p.Some? {
          chunkReceive := 0;
          var size := Stoi16(buffer[..p.value]);
          buffer := buffer[p.value + 2..];
          if size.None? {
            return buffer, false, false;
          }
          state := ChunkContent;
          chunkSize := size.value % TWO_64;
          if chunkSize == 0 {
            state := ChunkLast;
            chunkSize := 2;
          }
          changed := true;
        }
      case Finished => ok := false;
    }

    /** `handle_buffer`, in the chunk states. */
    method HandleBuffer(input: seq<byte>) returns (buffer: seq<byte>, ok: bool)
      requires chunkReceive <= chunkSize
      modifies this
      ensures chunkReceive <= chunkSize
      ensures View(buffer, !ok) == Run(old(View(input, false)))
    {
      buffer, ok := input, true;
      var changed := true;
      while changed
        invariant Inv(View(buffer, !ok))
        invariant if !changed || !ok then View(buffer, !ok) == Run(old(View(input, false)))
                  else Run(View(buffer, false)) == Run(old(View(input, false)))
        invariant !ok ==> !changed
        decreases |buffer|, Rank(state), changed
      {
        TurnProgress(View(buffer, false));
        buffer, changed, ok := HandleOnce(buffer);
        if !ok {
          changed := false;
        }
      }
    }
  }
}

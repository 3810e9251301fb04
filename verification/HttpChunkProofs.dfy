/** Chunked bodies come out whole however the network cuts them. */
module HttpChunkProofs {
  import opened Bytes
  import opened HttpChunks

  // ------------------------------------------------------------- split invariance

  lemma {:induction false} FindCrlfStable(s: seq<byte>, more: seq<byte>)
    requires FindCrlf(s).Some?
    ensures FindCrlf(s + more) == FindCrlf(s)
  {
    if !(s[0] == CR && s[1] == LF) {
      FindCrlfStable(s[1..], more);
      assert (s + more)[1..] == s[1..] + more;
    }
  }

  function Append(c: Client, more: seq<byte>): (c': Client) {
    c.(buffer := c.buffer + more)
  }

  /** A pass that got somewhere gets to the same place with more input behind it. */
  lemma TurnStable(c: Client, more: seq<byte>)
    requires Inv(c) && !Turn(c).Wait?
    ensures Turn(c).Again? ==> Turn(Append(c, more)) == Again(Append(Turn(c).c, more))
    ensures Turn(c).End? ==> Turn(Append(c, more)) == End(Append(Turn(c).c, more))
  {
    hide Stoi16, FindCrlf;
    match c.state
    case ChunkContent => ContentSplits(c.body, c.buffer, more, c.chunkSize - c.chunkReceive);
    case ChunkLen => LenStable(c, more);
    case ChunkTrailer => SliceFront(c.buffer, more, 2, 0);
    case ChunkLast => SliceFront(c.buffer, more, 2, 0);
    case Finished =>
  }

  lemma LenStable(c: Client, more: seq<byte>)
    requires c.state == ChunkLen && !Turn(c).Wait?
    ensures Turn(c).Again? ==> Turn(Append(c, more)) == Again(Append(Turn(c).c, more))
    ensures Turn(c).End? ==> Turn(Append(c, more)) == End(Append(Turn(c).c, more))
  {
    hide Stoi16, FindCrlf;
    FindCrlfStable(c.buffer, more);
    SliceFront(c.buffer, more, FindCrlf(c.buffer).value, 2);
  }

  lemma SliceFront(s: seq<byte>, more: seq<byte>, p: nat, gap: nat)
    requires p + gap <= |s|
    ensures (s + more)[..p] == s[..p] && (s + more)[p + gap..] == s[p + gap..] + more
  {
  }

  /** Filling a chunk that needs `need` bytes, from a buffer with `more` behind it. */
  lemma ContentSplits(body: seq<byte>, s: seq<byte>, more: seq<byte>, need: nat)
    ensures need <= |s| ==> (s + more)[..need] == s[..need] && (s + more)[need..] == s[need..] + more
    ensures |s| < need <= |s| + |more| ==>
              body + (s + more)[..need] == body + s + more[..need - |s|] && (s + more)[need..] == more[need - |s|..]
    ensures body + (s + more) == body + s + more
    ensures s[..|s|] == s && s[|s|..] == []
  {
    ConcatAssoc(body, s, more);
    if need <= |s| {
      SliceFront(s, more, need, 0);
    } else if need <= |s| + |more| {
      assert (s + more)[..need] == s + more[..need - |s|];
      ConcatAssoc(body, s, more[..need - |s|]);
    }
  }

  /** A pass that waits has taken all it could; the next one takes the rest. */
  lemma TurnResumes(c: Client, more: seq<byte>)
    requires Inv(c) && Turn(c).Wait?
    ensures Turn(Append(c, more)) == Turn(Append(Turn(c).c, more))
  {
    hide Stoi16, FindCrlf;
    if c.state == ChunkContent {
      hide Turn;
      ContentResumes(c, more);
    }
  }

  lemma ContentResumes(c: Client, more: seq<byte>)
    requires Inv(c) && Turn(c).Wait? && c.state == ChunkContent
    ensures Turn(Append(c, more)) == Turn(Append(Turn(c).c, more))
  {
    hide Turn;
    ContentCase(c);
    ContentCase(Append(c, more));
    ContentCase(Append(Turn(c).c, more));
    assert [] + more == more;
    ContentSplits(c.body, c.buffer, more, c.chunkSize - c.chunkReceive);
  }

  /** A pass over content: all of it, or up to the end of the chunk. */
  lemma ContentCase(c: Client)
    requires Inv(c) && c.state == ChunkContent
    ensures var need := c.chunkSize - c.chunkReceive;
            Turn(c) ==
            if |c.buffer| < need
            then Wait(c.(body := c.body + c.buffer, chunkReceive := c.chunkReceive + |c.buffer|, buffer := []))
            else Again(c.(body := c.body + c.buffer[..need], chunkReceive := c.chunkSize, buffer := c.buffer[need..],
                          state := ChunkTrailer))
  {
    hide Stoi16, FindCrlf;
    assert c.buffer[..|c.buffer|] == c.buffer && c.buffer[|c.buffer|..] == [];
  }

  lemma {:induction false} RunResumes(c: Client, more: seq<byte>)
    requires Inv(c) && !c.ended
    ensures Same(Run(Append(c, more)), Feed(Run(c), more))
    decreases |c.buffer|, Rank(c.state)
  {
    hide Turn;
    TurnProgress(c);
    TurnKeepsEnded(c);
    match Turn(c)
    case Again(c') =>
      TurnStable(c, more);
      RunResumes(c', more);
    case Wait(c') => TurnResumes(c, more);
    case End(c') => TurnStable(c, more);
  }

  lemma TurnKeepsEnded(c: Client)
    ensures Turn(c).c.ended == (c.ended || Turn(c).End?)
  {
    hide FindCrlf, Stoi16;
  }

  /** A second read adds up with the first. */
  lemma FeedTwice(c: Client, a: seq<byte>, b: seq<byte>)
    requires Inv(c)
    ensures Same(Feed(Feed(c, a), b), Feed(c, a + b))
  {
    hide Run;
    if !c.ended {
      RunResumes(Append(c, a), b);
      ConcatAssoc(c.buffer, a, b);
    }
  }

  lemma {:induction false} FeedSame(a: Client, b: Client, chunks: seq<seq<byte>>)
    requires Inv(a) && Inv(b) && Same(a, b)
    ensures Same(FeedAll(a, chunks), FeedAll(b, chunks))
    decreases chunks
  {
    if chunks != [] {
      FeedSame(Feed(a, chunks[0]), Feed(b, chunks[0]), chunks[1..]);
    }
  }

  /** Read-split invariance, for every stream whatever: feeding it piece by piece leaves the client
      as feeding it at once does. */
  lemma {:induction false} SplitInvariance(c: Client, chunks: seq<seq<byte>>)
    requires Inv(c) && chunks != []
    ensures Same(FeedAll(c, chunks), Feed(c, Flatten(chunks)))
    decreases chunks
  {
    hide Feed;
    if |chunks| == 1 {
      assert chunks[0] + Flatten(chunks[1..]) == chunks[0];
      assert FeedAll(Feed(c, chunks[0]), chunks[1..]) == Feed(c, chunks[0]);
    } else {
      SplitInvariance(Feed(c, chunks[0]), chunks[1..]);
      FeedTwice(c, chunks[0], Flatten(chunks[1..]));
    }
  }

  /** At every point of every stream, no chunk holds more than its size. */
  lemma {:induction false} ReceiveBounded(chunks: seq<seq<byte>>)
    ensures FeedAll(Start, chunks).chunkReceive <= FeedAll(Start, chunks).chunkSize
  {
    assert Inv(FeedAll(Start, chunks));
  }

  /** The body only grows. */
  lemma {:induction false} RunExtendsBody(c: Client)
    requires Inv(c)
    ensures c.body <= Run(c).body
    decreases |c.buffer|, Rank(c.state)
  {
    TurnProgress(c);
    TurnExtendsBody(c);
    if Turn(c).Again? {
      RunExtendsBody(Turn(c).c);
    }
  }

  lemma TurnExtendsBody(c: Client)
    ensures c.body <= Turn(c).c.body
  {
    hide FindCrlf, Stoi16;
  }

  // ------------------------------------------------------------ well-formed bodies

  /** A chunk: the digits of its size, an extension, its data. */
  datatype Chunk = Chunk(digits: seq<byte>, ext: seq<byte>, data: seq<byte>)

  /** A digit in ASCII: 0 to 9, A to F or a to f. */
  predicate Hexadecimal(c: byte) {
    48 <= c <= 57 || 65 <= c <= 70 || 97 <= c <= 102
  }

  function DigitSize(c: byte): (n: nat)
    requires Hexadecimal(c)
  {
    if c <= 57 then c - 48 else if c <= 70 then 10 + (c - 65) else 10 + (c - 97)
  }

  /** The number that hexadecimal digits stand for. */
  function SizeOf(digits: seq<byte>): (n: nat)
    requires forall i :: 0 <= i < |digits| ==> Hexadecimal(digits[i])
  {
    if digits == [] then 0
    else
      var last := digits[|digits| - 1];
      16 * SizeOf(digits[..|digits| - 1]) + (assert Hexadecimal(last); DigitSize(last))
  }

  /** The size line of a chunk of `n` bytes: hexadecimal digits in either case, leading zeros
      allowed, then nothing or an extension set off by a semicolon or white space. */
  ghost predicate SizeLine(digits: seq<byte>, ext: seq<byte>, n: nat) {
    && digits != []
    && (forall i :: 0 <= i < |digits| ==> Hexadecimal(digits[i]))
    && SizeOf(digits) == n < 0x8000_0000
    && (ext == [] || ext[0] == 59 || ext[0] == 32 || ext[0] == 9)
    && 13 !in ext
  }

  lemma HexSame(c: byte)
    ensures IsHex(c) <==> Hexadecimal(c)
    ensures Hexadecimal(c) ==> HexDigit(c) == Some(DigitSize(c))
  {
  }

  lemma {:induction false} SizeSame(digits: seq<byte>)
    requires forall i :: 0 <= i < |digits| ==> Hexadecimal(digits[i])
    ensures (forall i :: 0 <= i < |digits| ==> IsHex(digits[i])) && HexValue(digits) == SizeOf(digits)
  {
    forall i | 0 <= i < |digits|
      ensures IsHex(digits[i])
    {
      HexSame(digits[i]);
    }
    if digits != [] {
      SizeSame(digits[..|digits| - 1]);
      HexSame(digits[|digits| - 1]);
    }
  }

  ghost predicate WellFormed(chunks: seq<Chunk>) {
    forall i :: 0 <= i < |chunks| ==>
      SizeLine(chunks[i].digits, chunks[i].ext, |chunks[i].data|) && chunks[i].data != []
  }

  function Line(digits: seq<byte>, ext: seq<byte>): (s: seq<byte>) {
    digits + ext
  }

  function WireChunk(c: Chunk): (s: seq<byte>) {
    Line(c.digits, c.ext) + [13, 10] + (c.data + [13, 10])
  }

  function WireChunks(chunks: seq<Chunk>): (s: seq<byte>) {
    if chunks == [] then [] else WireChunk(chunks[0]) + WireChunks(chunks[1..])
  }

  /** The whole body: the chunks, the last size line, and the empty line that ends it. */
  function WireBody(chunks: seq<Chunk>, digits: seq<byte>, ext: seq<byte>): (s: seq<byte>) {
    WireChunks(chunks) + (Line(digits, ext) + [13, 10] + [13, 10])
  }

  function DataOf(chunks: seq<Chunk>): (s: seq<byte>) {
    if chunks == [] then [] else chunks[0].data + DataOf(chunks[1..])
  }

  lemma {:induction false} FindLine(line: seq<byte>, rest: seq<byte>)
    requires CR !in line
    ensures FindCrlf(line + CRLF + rest) == Some(|line|)
  {
    var s := line + CRLF + rest;
    if line == [] {
      assert s[0] == CR && s[1] == LF;
    } else {
      assert s[0] == line[0];
      FindLine(line[1..], rest);
      assert s[1..] == line[1..] + CRLF + rest;
    }
  }

  lemma {:induction false} HexFrontIs(digits: seq<byte>, ext: seq<byte>)
    requires forall i :: 0 <= i < |digits| ==> IsHex(digits[i])
    requires ext == [] || !IsHex(ext[0])
    ensures HexFront(digits + ext) == digits
  {
    if digits == [] {
      assert digits + ext == ext;
    } else {
      HexFrontIs(digits[1..], ext);
      assert (digits + ext)[1..] == digits[1..] + ext;
      assert IsHex(digits[0]);
    }
  }

  /** `stoi` reads a size line as the size. */
  lemma SizeLineReads(digits: seq<byte>, ext: seq<byte>, n: nat)
    requires SizeLine(digits, ext, n)
    ensures Stoi16(Line(digits, ext)) == Some(n)
  {
    hide HexValue, SizeOf;
    var s := digits + ext;
    SizeSame(digits);
    assert IsHex(digits[0]);
    assert SkipSpace(s) == s;
    HexFrontIs(digits, ext);
    assert |digits| > 1 ==> IsHex(digits[1]);
  }

  /** The blanks that `stoi` passes over. */
  predicate Blank(c: byte) {
    c in {9, 10, 11, 12, 13, 32}
  }

  lemma {:induction false} SkipBlanks(blanks: seq<byte>, rest: seq<byte>)
    requires (forall i :: 0 <= i < |blanks| ==> Blank(blanks[i])) && (rest == [] || !Blank(rest[0]))
    ensures SkipSpace(blanks + rest) == rest
  {
    if blanks == [] {
      assert blanks + rest == rest;
    } else {
      assert Blank(blanks[0]);
      assert (blanks + rest)[1..] == blanks[1..] + rest;
      SkipBlanks(blanks[1..], rest);
    }
  }

  /** `stoi` in full: blanks, a sign, 0x, digits and whatever is no digit. */
  lemma StoiReads(blanks: seq<byte>, sign: seq<byte>, prefix: seq<byte>, digits: seq<byte>, rest: seq<byte>)
    requires forall i :: 0 <= i < |blanks| ==> Blank(blanks[i])
    requires sign in {[], [43], [45]} && prefix in {[], [48, 120], [48, 88]}
    requires digits != [] && forall i :: 0 <= i < |digits| ==> Hexadecimal(digits[i])
    requires rest == [] || !Hexadecimal(rest[0])
    requires prefix == [] && digits == [48] && |rest| >= 2 && rest[0] in {120, 88} ==> !Hexadecimal(rest[1])
    ensures var n := SizeOf(digits);
            var m: int := if sign == [45] then -1 * n else n;
            Stoi16(blanks + (sign + (prefix + (digits + rest))))
            == if -0x8000_0000 <= m < 0x8000_0000 then Some(m) else None
  {
    hide HexValue, SizeOf, SkipSpace, HexFront, AfterSign, AfterPrefix, IsHex;
    var v := digits + rest;
    var u := prefix + v;
    assert Hexadecimal(digits[0]);
    SkipBlanks(blanks, sign + u);
    SignPassed(sign, u);
    PrefixPassed(prefix, digits, rest);
    SizeSame(digits);
    if rest != [] { HexSame(rest[0]); }
    HexFrontIs(digits, rest);
  }

  lemma SignPassed(sign: seq<byte>, u: seq<byte>)
    requires sign in {[], [43], [45]} && (u == [] || (u[0] != 43 && u[0] != 45))
    ensures AfterSign(sign + u) == u && (sign + u != [] && (sign + u)[0] == 45 <==> sign == [45])
  {
    if sign == [] {
      assert sign + u == u;
    } else {
      assert (sign + u)[1..] == u;
    }
  }

  lemma PrefixPassed(prefix: seq<byte>, digits: seq<byte>, rest: seq<byte>)
    requires prefix in {[], [48, 120], [48, 88]}
    requires digits != [] && forall i :: 0 <= i < |digits| ==> Hexadecimal(digits[i])
    requires rest == [] || !Hexadecimal(rest[0])
    requires prefix == [] && digits == [48] && |rest| >= 2 && rest[0] in {120, 88} ==> !Hexadecimal(rest[1])
    ensures AfterPrefix(prefix + (digits + rest)) == digits + rest
  {
    hide IsHex;
    var v := digits + rest;
    var u := prefix + v;
    if |u| >= 3 { HexSame(u[2]); }
    assert Hexadecimal(digits[0]);
    if prefix == [] {
      assert u == v;
      if |digits| > 1 {
        assert Hexadecimal(digits[1]) && v[1] == digits[1];
      } else if |v| >= 3 {
        assert digits == [digits[0]] && v[1] == rest[0] && v[2] == rest[1];
      }
    } else {
      assert u[2..] == v && u[2] == digits[0];
    }
  }

  /** Without a digit there is no number. */
  lemma StoiRefuses(blanks: seq<byte>, sign: seq<byte>, rest: seq<byte>)
    requires forall i :: 0 <= i < |blanks| ==> Blank(blanks[i])
    requires sign in {[], [43], [45]} && (rest == [] || !Hexadecimal(rest[0]))
    requires sign == [] && rest != [] ==> !Blank(rest[0]) && rest[0] != 43 && rest[0] != 45
    ensures Stoi16(blanks + (sign + rest)) == None
  {
    hide HexValue, SkipSpace;
    SkipBlanks(blanks, sign + rest);
    if rest != [] { HexSame(rest[0]); }
    assert sign != [] ==> (sign + rest)[1..] == rest;
  }

  /** What any complete size line does: no number ends the connection where it stands, zero leads to
      the last line, and any other number, a negative one as an unsigned 64-bit number, to that much
      content. */
  lemma AnyLine(c: Client, line: seq<byte>, rest: seq<byte>)
    requires c.state == ChunkLen && 13 !in line && c.buffer == line + [13, 10] + rest
    ensures var size := Stoi16(line);
            var c' := c.(chunkReceive := 0, buffer := rest);
            Turn(c) ==
            if size.None? then End(c'.(ended := true))
            else if size.value == 0 then Again(c'.(state := ChunkLast, chunkSize := 2))
            else Again(c'.(state := ChunkContent,
                           chunkSize := if size.value > 0 then size.value else size.value + 0x1_0000_0000_0000_0000))
  {
    hide FindCrlf, Stoi16;
    FindLine(line, rest);
    assert c.buffer[..|line|] == line && c.buffer[|line| + 2..] == rest;
  }

  /** Anything but the line end after a chunk, or after the last size line, is waited at for ever. */
  lemma BadTrailerWaits(c: Client, more: seq<byte>)
    requires Inv(c) && (c.state == ChunkTrailer || c.state == ChunkLast) && !c.ended
    requires |c.buffer| >= 2 && !(c.buffer[0] == 13 && c.buffer[1] == 10)
    ensures Feed(c, more) == c.(buffer := c.buffer + more)
  {
    var s := c.buffer + more;
    assert s[0] == c.buffer[0] && s[1] == c.buffer[1];
    assert s[..2][0] == s[0] && s[..2][1] == s[1];
  }

  lemma NoCrInLine(digits: seq<byte>, ext: seq<byte>, n: nat)
    requires SizeLine(digits, ext, n)
    ensures CR !in Line(digits, ext)
  {
    hide SizeOf;
    assert forall i :: 0 <= i < |digits| ==> Hexadecimal(digits[i]) && digits[i] != CR;
  }

  lemma LineTurn(c: Client, digits: seq<byte>, ext: seq<byte>, n: nat, rest: seq<byte>)
    requires c.state == ChunkLen && SizeLine(digits, ext, n) && c.buffer == Line(digits, ext) + CRLF + rest
    ensures Turn(c) == Again(c.(chunkReceive := 0, buffer := rest, state := if n == 0 then ChunkLast else ChunkContent,
                                chunkSize := if n == 0 then 2 else n))
  {
    hide FindCrlf, Stoi16, SizeLine;
    var line := Line(digits, ext);
    NoCrInLine(digits, ext, n);
    FindLine(line, rest);
    SizeLineReads(digits, ext, n);
    LineFits(digits, ext, n);
    assert c.buffer[..|line|] == line && c.buffer[|line| + 2..] == rest;
  }

  lemma LineFits(digits: seq<byte>, ext: seq<byte>, n: nat)
    requires SizeLine(digits, ext, n)
    ensures n % TWO_64 == n
  {
  }

  /** One chunk takes three passes and adds its data. */
  lemma ChunkRun(c: Client, chunk: Chunk, rest: seq<byte>) returns (c': Client)
    requires Inv(c) && c.state == ChunkLen && c.buffer == WireChunk(chunk) + rest
    requires SizeLine(chunk.digits, chunk.ext, |chunk.data|) && chunk.data != []
    ensures Inv(c') && Run(c) == Run(c')
    ensures c'.state == ChunkLen && c'.body == c.body + chunk.data && c'.buffer == rest && c'.ended == c.ended
  {
    hide SizeLine, Line, Turn;
    var data, line := chunk.data, Line(chunk.digits, chunk.ext);
    ConcatAssoc(line + CRLF, data + CRLF, rest);
    LineTurn(c, chunk.digits, chunk.ext, |data|, data + CRLF + rest);
    TurnProgress(c);
    var c1 := Turn(c).c;
    ContentTurn(c1, data, rest);
    TurnProgress(c1);
    var c2 := Turn(c1).c;
    TrailerTurn(c2, rest);
    TurnProgress(c2);
    c' := Turn(c2).c;
    assert Run(c) == Run(c1) && Run(c1) == Run(c2) && Run(c2) == Run(c');
  }

  lemma ContentTurn(c: Client, data: seq<byte>, rest: seq<byte>)
    requires c.state == ChunkContent && c.chunkReceive == 0 && c.chunkSize == |data| > 0
    requires c.buffer == data + CRLF + rest
    ensures Turn(c) == Again(c.(state := ChunkTrailer, body := c.body + data, chunkReceive := |data|,
                                buffer := CRLF + rest))
  {
    ConcatAssoc(data, CRLF, rest);
    assert c.buffer[..|data|] == data && c.buffer[|data|..] == CRLF + rest;
  }

  lemma TrailerTurn(c: Client, rest: seq<byte>)
    requires c.state == ChunkTrailer && c.buffer == CRLF + rest
    ensures Turn(c) == Again(c.(state := ChunkLen, buffer := rest))
  {
    assert c.buffer[..2] == CRLF && c.buffer[2..] == rest;
  }

  lemma {:induction false} ChunksRun(c: Client, chunks: seq<Chunk>, rest: seq<byte>) returns (c': Client)
    requires Inv(c) && c.state == ChunkLen && WellFormed(chunks) && c.buffer == WireChunks(chunks) + rest
    ensures Inv(c') && Run(c) == Run(c')
    ensures c'.state == ChunkLen && c'.body == c.body + DataOf(chunks) && c'.buffer == rest && c'.ended == c.ended
    decreases chunks
  {
    hide Run, WireChunk, SizeLine;
    if chunks == [] {
      c' := c;
      assert c.buffer == rest;
      assert c.body + [] == c.body;
    } else {
      ConcatAssoc(WireChunk(chunks[0]), WireChunks(chunks[1..]), rest);
      var c1 := ChunkRun(c, chunks[0], WireChunks(chunks[1..]) + rest);
      c' := ChunksRun(c1, chunks[1..], rest);
      ConcatAssoc(c.body, chunks[0].data, DataOf(chunks[1..]));
    }
  }

  /** The whole body in one read: done, with exactly the data. One byte less: still waiting for it. */
  lemma WholeBody(chunks: seq<Chunk>, digits: seq<byte>, ext: seq<byte>)
    requires WellFormed(chunks) && SizeLine(digits, ext, 0)
    ensures var s := WireBody(chunks, digits, ext);
            && |s| > 0
            && Feed(Start, s).state == Finished && Feed(Start, s).ended && Feed(Start, s).body == DataOf(chunks)
            && !Feed(Start, s[..|s| - 1]).ended && Feed(Start, s[..|s| - 1]).state == ChunkLast
  {
    hide Run, SizeLine, Line, WireChunks;
    var line := Line(digits, ext);
    var s := WireBody(chunks, digits, ext);
    assert [] + s == s;
    var c := ChunksRun(Append(Start, s), chunks, line + CRLF + CRLF);
    LastRun(c, digits, ext, CRLF);
    var short := s[..|s| - 1];
    assert short == WireChunks(chunks) + (line + CRLF + [CR]);
    assert [] + short == short;
    var d := ChunksRun(Append(Start, short), chunks, line + CRLF + [CR]);
    LastRun(d, digits, ext, [CR]);
    assert [] + DataOf(chunks) == DataOf(chunks);
  }

  lemma LastRun(c: Client, digits: seq<byte>, ext: seq<byte>, rest: seq<byte>)
    requires Inv(c) && c.state == ChunkLen && SizeLine(digits, ext, 0) && c.buffer == Line(digits, ext) + CRLF + rest
    requires !c.ended
    ensures rest == CRLF ==> Run(c).state == Finished && Run(c).ended && Run(c).body == c.body
    ensures rest == [CR] ==> Run(c).state == ChunkLast && !Run(c).ended && Run(c).body == c.body
  {
    LineTurn(c, digits, ext, 0, rest);
    TurnProgress(c);
    var c1 := Turn(c).c;
    assert Run(c) == Run(c1);
    assert CRLF[..2] == CRLF;
  }

  // -------------------------------------------------------------------- theorem

  /** For every well-formed body and every way the network cuts what has arrived of it: the decoder
      is done exactly when the last byte has come, what it has decoded so far is the front of the
      data, and in the end it is the data. */
  lemma ChunkedBodyDecodes(chunks: seq<Chunk>, digits: seq<byte>, ext: seq<byte>, pieces: seq<seq<byte>>)
    requires WellFormed(chunks) && SizeLine(digits, ext, 0) && pieces != []
    requires Flatten(pieces) <= WireBody(chunks, digits, ext)
    ensures var c := FeedAll(Start, pieces);
            && (c.state == Finished <==> Flatten(pieces) == WireBody(chunks, digits, ext))
            && (c.ended <==> Flatten(pieces) == WireBody(chunks, digits, ext))
            && c.body <= DataOf(chunks)
            && (c.state == Finished ==> c.body == DataOf(chunks))
  {
    hide WireBody, FeedAll, Run, SizeLine, WellFormed;
    var s, got := WireBody(chunks, digits, ext), Flatten(pieces);
    SplitInvariance(Start, pieces);
    WholeBody(chunks, digits, ext);
    var c := Feed(Start, got);
    FeedTwice(Start, got, s[|got|..]);
    assert got + s[|got|..] == s;
    if !c.ended {
      RunExtendsBody(Append(c, s[|got|..]));
    }
    if got != s {
      var most := s[..|s| - 1];
      FeedTwice(Start, got, most[|got|..]);
      assert got + most[|got|..] == most;
      assert !c.ended;
      FinishedMeansEnded(Append(Start, got));
    }
  }

  lemma {:induction false} FinishedMeansEnded(c: Client)
    requires Inv(c) && c.state != Finished
    ensures Run(c).state == Finished ==> Run(c).ended
    decreases |c.buffer|, Rank(c.state)
  {
    TurnProgress(c);
    TurnFinished(c);
    if Turn(c).Again? {
      FinishedMeansEnded(Turn(c).c);
    }
  }

  lemma TurnFinished(c: Client)
    requires c.state != Finished
    ensures Turn(c).c.state == Finished ==> Turn(c).End? && Turn(c).c.ended
  {
    hide FindCrlf, Stoi16;
  }
}

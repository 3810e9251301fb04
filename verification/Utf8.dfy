/** Counting and cutting UTF-8 text by characters, with the byte scanners of the utility functions
    held against the encoding of section 3 of RFC 3629. */
module Utf8 {
  import opened Bytes

  /** A Unicode scalar value. */
  type Scalar = c: int | 0 <= c < 0xD800 || 0xE000 <= c <= 0x10FFFF

  function Encode(c: Scalar): (s: seq<byte>)
    ensures 1 <= |s| <= 4
  {
    if c < 0x80 then [c]
    else if c < 0x800 then [0xC0 + c / 64, 0x80 + c % 64]
    else if c < 0x10000 then [0xE0 + c / 4096, 0x80 + c / 64 % 64, 0x80 + c % 64]
    else [0xF0 + c / 262144, 0x80 + c / 4096 % 64, 0x80 + c / 64 % 64, 0x80 + c % 64]
  }

  function EncodeAll(cs: seq<Scalar>): (s: seq<byte>)
    ensures |s| >= |cs|
  {
    if cs == [] then [] else Encode(cs[0]) + EncodeAll(cs[1..])
  }

  /** How many characters come before the first NUL. */
  function UpToNul(cs: seq<Scalar>): (n: nat)
    ensures n <= |cs|
    ensures 0 !in cs ==> n == |cs|
  {
    if cs == [] || cs[0] == 0 then 0 else 1 + UpToNul(cs[1..])
  }

  /** The byte offset of character `k`. */
  function Off(cs: seq<Scalar>, k: nat): (n: nat)
    requires k <= |cs|
  {
    |EncodeAll(cs[..k])|
  }

  // ------------------------------------------------------------------- encodings

  lemma {:induction false} EncodeConcat(a: seq<Scalar>, b: seq<Scalar>)
    ensures EncodeAll(a + b) == EncodeAll(a) + EncodeAll(b)
  {
    if a == [] {
      assert a + b == b;
    } else {
      EncodeConcat(a[1..], b);
      assert (a + b)[1..] == a[1..] + b;
      ConcatAssoc(Encode(a[0]), EncodeAll(a[1..]), EncodeAll(b));
    }
  }

  /** The text from character `k` on starts at its offset. */
  lemma SuffixAt(cs: seq<Scalar>, k: nat)
    requires k <= |cs|
    ensures Off(cs, k) <= |EncodeAll(cs)| && EncodeAll(cs)[Off(cs, k)..] == EncodeAll(cs[k..])
    ensures EncodeAll(cs)[..Off(cs, k)] == EncodeAll(cs[..k])
    ensures Off(cs, k) == |EncodeAll(cs)| <==> k == |cs|
  {
    EncodeConcat(cs[..k], cs[k..]);
    assert cs[..k] + cs[k..] == cs;
  }

  /** One character further on. */
  lemma NextOff(cs: seq<Scalar>, k: nat)
    requires k < |cs|
    ensures Off(cs, k + 1) == Off(cs, k) + |Encode(cs[k])|
    ensures Off(cs, k) < |EncodeAll(cs)| && EncodeAll(cs)[Off(cs, k)] == Encode(cs[k])[0]
  {
    hide Encode, EncodeAll;
    SuffixAt(cs, k);
    assert cs[..k + 1] == cs[..k] + [cs[k]];
    EncodeConcat(cs[..k], [cs[k]]);
    EncodeHead([cs[k]]);
    EncodeHead(cs[k..]);
    assert EncodeAll(cs)[Off(cs, k)] == EncodeAll(cs)[Off(cs, k)..][0];
  }

  lemma EncodeHead(cs: seq<Scalar>)
    requires cs != []
    ensures EncodeAll(cs)[0] == Encode(cs[0])[0]
    ensures |cs| == 1 ==> |EncodeAll(cs)| == |Encode(cs[0])|
  {
    hide Encode;
    if |cs| == 1 {
      assert cs[1..] == [];
    }
  }

  lemma OffMonotone(cs: seq<Scalar>, j: nat, k: nat)
    requires j < k <= |cs|
    ensures Off(cs, j) < Off(cs, k)
  {
    assert cs[..k] == cs[..j] + cs[j..k];
    EncodeConcat(cs[..j], cs[j..k]);
  }

  // ------------------------------------------------------------------- utf8len

  /** The byte at `i` of the C string, whose end is a zero byte. */
  function At(s: seq<byte>, i: nat): (c: byte)
    requires i <= |s|
  {
    if i < |s| then s[i] else 0
  }

  /** A positive `char`. */
  predicate Ascii(c: byte) {
    0 < c < 128
  }

  /** How far `utf8len` goes for a first byte, whatever bytes follow. */
  function StepLen(c: byte): (n: nat)
    requires c != 0
    ensures 1 <= n <= 4
  {
    if c < 128 then 1 else if c / 16 == 14 then 3 else if c / 16 == 15 then 4 else 2
  }

  /** The steps from `i` to a zero byte; None when they go past the end of the string. */
  function CountFrom(s: seq<byte>, i: nat): (r: Option<nat>)
    decreases |s| - i
  {
    if i > |s| then None
    else if At(s, i) == 0 then Some(0)
    else Plus(1, CountFrom(s, i + StepLen(At(s, i))))
  }

  function Plus(n: nat, r: Option<nat>): (r': Option<nat>) {
    if r.None? then None else Some(n + r.value)
  }

  /** The loop over plain characters. */
  method SkipAscii(s: seq<byte>, from: nat) returns (i: nat)
    requires from <= |s|
    ensures from <= i <= |s| && !Ascii(At(s, i))
    ensures CountFrom(s, from) == Plus(i - from, CountFrom(s, i))
  {
    i := from;
    while Ascii(At(s, i))
      invariant from <= i <= |s|
      invariant CountFrom(s, from) == Plus(i - from, CountFrom(s, i))
      decreases |s| - i
    {
      i := i + 1;
    }
  }

  /** `utf8len`, on any bytes on which it stays inside the string. The jump back into the first loop
      counts a further run of plain characters. */
  method Utf8Len(s: seq<byte>) returns (count: nat)
    requires CountFrom(s, 0).Some?
    ensures Some(count) == CountFrom(s, 0)
  {
    var i := SkipAscii(s, 0);
    count := i;
    while At(s, i) != 0
      invariant i <= |s| && CountFrom(s, i).Some? && CountFrom(s, 0) == Plus(count, CountFrom(s, i))
      decreases |s| - i
    {
      if Ascii(At(s, i)) {
        var iBefore := i;
        i := SkipAscii(s, i + 1);
        count := count + (i - iBefore);
      } else {
        var high := At(s, i) / 16 * 16;
        i := i + (if high == 0xE0 then 3 else if high == 0xF0 then 4 else 2);
        count := count + 1;
      }
    }
  }

  /** What the byte at a boundary tells about the character there. */
  lemma AtBoundary(cs: seq<Scalar>, k: nat)
    requires k <= |cs|
    ensures Off(cs, k) <= |EncodeAll(cs)|
    ensures var c := At(EncodeAll(cs), Off(cs, k));
            && (c == 0 <==> k == |cs| || cs[k] == 0)
            && (c == 0 && k < |cs| ==> |Encode(cs[k])| == 1)
            && (Ascii(c) ==> k < |cs| && cs[k] != 0 && |Encode(cs[k])| == 1)
            && (c >= 128 ==> k < |cs| && cs[k] != 0 && 0xC0 <= c < 0xF8
                             && |Encode(cs[k])| == if c >= 0xF0 then 4 else if c >= 0xE0 then 3 else 2)
  {
    SuffixAt(cs, k);
    if k < |cs| {
      NextOff(cs, k);
    }
  }

  /** On valid text the steps are the characters before the first NUL. */
  lemma {:induction false} CountOnText(cs: seq<Scalar>, k: nat)
    requires k <= |cs|
    ensures CountFrom(EncodeAll(cs), Off(cs, k)) == Some(UpToNul(cs[k..]))
    decreases |cs| - k
  {
    hide Off, Encode, EncodeAll;
    AtBoundary(cs, k);
    if k < |cs| && cs[k] != 0 {
      NextOff(cs, k);
      CountOnText(cs, k + 1);
      assert cs[k..][1..] == cs[k + 1..];
    }
  }

  /** `utf8len` counts the characters of valid text before the first NUL. */
  lemma LenOfText(cs: seq<Scalar>)
    ensures CountFrom(EncodeAll(cs), 0) == Some(UpToNul(cs))
  {
    hide EncodeAll, CountFrom, UpToNul;
    OffZero(cs);
    CountOnText(cs, 0);
    assert cs[0..] == cs;
  }

  lemma OffZero(cs: seq<Scalar>)
    ensures Off(cs, 0) == 0
  {
    assert cs[..0] == [];
  }

  // ---------------------------------------------------------------- utf8substr

  const NPOS: nat := TWO_64 - 1

  function Min(a: nat, b: nat): (r: nat) {
    if a < b then a else b
  }

  /** `std::string::substr`. */
  function Substr(s: seq<byte>, pos: nat, count: nat): (r: seq<byte>)
    requires pos <= |s|
  {
    s[pos..Min(pos + count, |s|)]
  }

  /** The length that a first byte announces, 0 for a byte that cannot be first. */
  function LeadLen(c: byte): (n: nat)
    ensures n <= 4
  {
    if c < 0x80 then 1 else if c / 32 == 6 then 2 else if c / 16 == 14 then 3 else if c / 8 == 30 then 4 else 0
  }

  /** The places at which the scan from `i` looks, and the one at which it ends; None when it meets a
      byte that cannot be first. */
  function Bounds(s: seq<byte>, i: nat): (r: Option<seq<nat>>)
    ensures r.Some? ==> |r.value| >= 1 && r.value[0] == i
    ensures r.Some? ==> forall j :: 0 <= j < |r.value| - 1 ==> r.value[j] < |s|
    ensures r.Some? && i <= |s| ==> forall j :: 0 <= j < |r.value| ==> r.value[j] < |s| + 4
    decreases |s| - i
  {
    if i >= |s| then Some([i])
    else if LeadLen(s[i]) == 0 then None
    else Behind([i], Bounds(s, i + LeadLen(s[i])))
  }

  function Behind(front: seq<nat>, r: Option<seq<nat>>): (r': Option<seq<nat>>) {
    if r.None? then None else Some(front + r.value)
  }

  /** Where the scan stops taking: `start + leng` as a 64-bit sum, or never for `npos`. */
  function Stop(start: nat, leng: nat): (r: nat) {
    if leng == NPOS then NPOS else (start + leng) % TWO_64
  }

  /** What `utf8substr` returns: it cuts from the right place, but for as many bytes as lie before the
      end of the slice. */
  function SubstrOf(s: seq<byte>, start: nat, leng: nat): (r: seq<byte>)
    requires start == 0 && leng != 0 ==> CountFrom(s, 0).Some?
  {
    if leng == 0 then []
    else if start == 0 && leng >= CountFrom(s, 0).value then s
    else
      var b := Bounds(s, 0);
      if b.None? then [] else Cut(s, b.value, start, Stop(start, leng))
  }

  /** The cut at the places `b`: from place `start`, as many bytes as place `stop` has before it. */
  function Cut(s: seq<byte>, b: seq<nat>, start: nat, stop: nat): (r: seq<byte>)
    requires |b| >= 1 && forall j :: 0 <= j < |b| - 1 ==> b[j] < |s|
  {
    if start >= |b| - 1 then [] else Substr(s, b[start], b[Min(stop, |b| - 1)])
  }

  /** `utf8substr`, on any bytes. Only a cut from the front has them counted first. */
  method Utf8Substr(s: seq<byte>, start: nat, leng: nat) returns (r: seq<byte>)
    requires |s| < TWO_63 && start <= NPOS && leng <= NPOS
    requires start == 0 && leng != 0 ==> CountFrom(s, 0).Some?
    ensures r == SubstrOf(s, start, leng)
  {
    hide CountFrom, Bounds, Stop, SubstrOf, Behind, Substr;
    SubstrEarly(s, start, leng);
    if leng == 0 {
      return [];
    }
    if start == 0 {
      var n := Utf8Len(s);
      if leng >= n {
        return s;
      }
    }
    var q, i, min, max := 0, 0, NPOS, NPOS;
    ghost var seen: seq<nat> := [];
    ghost var stop := Stop(start, leng);
    ghost var all := Bounds(s, 0);
    BoundsBehindNothing(s);
    while i < |s|
      invariant i < |s| + 4 && all == Behind(seen, Bounds(s, i)) && q == |seen|
      invariant forall j :: 0 <= j < q ==> seen[j] < |s|
      invariant min == if start < q then seen[start] else NPOS
      invariant max == if q == 0 then NPOS else seen[Min(stop, q - 1)]
      invariant q <= i
      decreases |s| - i
    {
      BoundsStep(s, i);
      if q == start {
        min := i;
      }
      StopTest(q, start, leng);
      if q <= (start + leng) % TWO_64 || leng == NPOS {
        max := i;
      }
      var c := s[i];
      ghost var i0 := i;
      if c < 0x80 {
      } else if c / 32 == 6 {
        i := i + 1;
      } else if c / 16 == 14 {
        i := i + 2;
      } else if c / 8 == 30 {
        i := i + 3;
      } else {
        BehindNone(seen);
        return [];
      }
      i := i + 1;
      q := q + 1;
      BehindTwice(seen, [i0], Bounds(s, i));
      seen := seen + [i0];
    }
    BoundsStep(s, i);
    StopTest(q, start, leng);
    SubstrByScan(s, start, leng, seen, i);
    if q <= (start + leng) % TWO_64 || leng == NPOS {
      max := i;
    }
    if min == NPOS || max == NPOS {
      return [];
    }
    r := Substr(s, min, max);
  }

  lemma SubstrEarly(s: seq<byte>, start: nat, leng: nat)
    requires start == 0 && leng != 0 ==> CountFrom(s, 0).Some?
    ensures leng == 0 ==> SubstrOf(s, start, leng) == []
    ensures start == 0 && leng != 0 && leng >= CountFrom(s, 0).value ==> SubstrOf(s, start, leng) == s
    ensures leng != 0 && !(start == 0 && leng >= CountFrom(s, 0).value) && Bounds(s, 0).None? ==>
              SubstrOf(s, start, leng) == []
  {
    hide CountFrom, Bounds;
  }

  /** The cut by the places seen and the place where the scan ended. */
  lemma SubstrByScan(s: seq<byte>, start: nat, leng: nat, seen: seq<nat>, i: nat)
    requires start == 0 && leng != 0 ==> CountFrom(s, 0).Some?
    requires leng != 0 && !(start == 0 && leng >= CountFrom(s, 0).value)
    requires Bounds(s, 0) == Behind(seen, Some([i])) && forall j :: 0 <= j < |seen| ==> seen[j] < |s|
    ensures start >= |seen| ==> SubstrOf(s, start, leng) == []
    ensures start < |seen| ==>
              SubstrOf(s, start, leng)
              == Substr(s, seen[start], if |seen| <= Stop(start, leng) then i else seen[Stop(start, leng)])
  {
    hide CountFrom, Bounds, Stop, Substr, SubstrOf, Cut;
    assert Bounds(s, 0) == Some(seen + [i]);
    SubstrIsCut(s, start, leng, seen + [i]);
    CutSeen(s, seen, i, start, Stop(start, leng));
  }

  lemma SubstrIsCut(s: seq<byte>, start: nat, leng: nat, b: seq<nat>)
    requires start == 0 && leng != 0 ==> CountFrom(s, 0).Some?
    requires leng != 0 && !(start == 0 && leng >= CountFrom(s, 0).value) && Bounds(s, 0) == Some(b)
    ensures |b| >= 1 && forall j :: 0 <= j < |b| - 1 ==> b[j] < |s|
    ensures SubstrOf(s, start, leng) == Cut(s, b, start, Stop(start, leng))
  {
    hide CountFrom, Stop, Cut, Bounds;
  }

  lemma CutSeen(s: seq<byte>, seen: seq<nat>, i: nat, start: nat, stop: nat)
    requires forall j :: 0 <= j < |seen| ==> seen[j] < |s|
    ensures start >= |seen| ==> Cut(s, seen + [i], start, stop) == []
    ensures start < |seen| ==> Cut(s, seen + [i], start, stop) == Substr(s, seen[start], if |seen| <= stop then i else seen[stop])
  {
    hide Substr;
  }

  lemma BehindNone(front: seq<nat>)
    ensures Behind(front, None) == None
  {
  }

  lemma BoundsBehindNothing(s: seq<byte>)
    ensures Bounds(s, 0) == Behind([], Bounds(s, 0))
  {
    hide Bounds;
    if Bounds(s, 0).Some? {
      assert [] + Bounds(s, 0).value == Bounds(s, 0).value;
    }
  }

  lemma BehindTwice(a: seq<nat>, b: seq<nat>, r: Option<seq<nat>>)
    ensures Behind(a, Behind(b, r)) == Behind(a + b, r)
  {
    if r.Some? {
      ConcatAssoc(a, b, r.value);
    }
  }

  lemma BoundsStep(s: seq<byte>, i: nat)
    ensures i >= |s| ==> Bounds(s, i) == Some([i])
    ensures i < |s| && LeadLen(s[i]) == 0 ==> Bounds(s, i) == None
    ensures i < |s| && LeadLen(s[i]) != 0 ==> Bounds(s, i) == Behind([i], Bounds(s, i + LeadLen(s[i])))
  {
  }

  lemma StopTest(q: nat, start: nat, leng: nat)
    requires q <= NPOS
    ensures (q <= (start + leng) % TWO_64 || leng == NPOS) <==> q <= Stop(start, leng)
  {
  }

  /** On valid text the places are the offsets of the characters. */
  lemma {:induction false} BoundsOfText(cs: seq<Scalar>, k: nat)
    requires k <= |cs|
    ensures var b := Bounds(EncodeAll(cs), Off(cs, k));
            b.Some? && |b.value| == |cs| - k + 1 && forall j :: 0 <= j <= |cs| - k ==> b.value[j] == Off(cs, k + j)
    decreases |cs| - k
  {
    hide Off, Encode, EncodeAll, Bounds;
    var s, i := EncodeAll(cs), Off(cs, k);
    SuffixAt(cs, k);
    BoundsStep(s, i);
    if k < |cs| {
      AtBoundary(cs, k);
      NextOff(cs, k);
      BoundsOfText(cs, k + 1);
      var b := Bounds(s, Off(cs, k + 1)).value;
      assert Bounds(s, i).value == [i] + b;
      forall j | 0 < j <= |cs| - k
        ensures ([i] + b)[j] == Off(cs, k + j)
      {
        assert b[j - 1] == Off(cs, k + 1 + (j - 1));
      }
    }
  }

  // -------------------------------------------------------------------- theorems

  /** The characters asked for. */
  function Slice(cs: seq<Scalar>, start: nat, leng: nat): (r: seq<Scalar>) {
    if start >= |cs| then [] else cs[start..Min(start + leng, |cs|)]
  }

  /** The cut of valid text, by offsets of characters. */
  lemma SubstrOfText(cs: seq<Scalar>, start: nat, leng: nat)
    requires leng != 0 && !(start == 0 && leng >= UpToNul(cs))
    ensures CountFrom(EncodeAll(cs), 0).Some?
    ensures start >= |cs| ==> SubstrOf(EncodeAll(cs), start, leng) == []
    ensures start < |cs| ==>
              && Off(cs, start) <= |EncodeAll(cs)|
              && SubstrOf(EncodeAll(cs), start, leng)
                 == Substr(EncodeAll(cs), Off(cs, start), Off(cs, Min(Stop(start, leng), |cs|)))
  {
    hide Off, EncodeAll, Bounds, CountFrom, Stop, Substr;
    LenOfText(cs);
    OffZero(cs);
    BoundsOfText(cs, 0);
    if start < |cs| {
      SuffixAt(cs, start);
      var b := Bounds(EncodeAll(cs), 0).value;
      assert b[start] == Off(cs, 0 + start);
      assert b[Min(Stop(start, leng), |cs|)] == Off(cs, 0 + Min(Stop(start, leng), |cs|));
    }
  }

  /** From the front, cutting text without NUL is exact: the first `leng` characters. */
  lemma CutFromFront(cs: seq<Scalar>, leng: nat)
    requires leng <= NPOS && (leng < UpToNul(cs) || leng >= |cs|)
    ensures CountFrom(EncodeAll(cs), 0).Some?
    ensures SubstrOf(EncodeAll(cs), 0, leng) == EncodeAll(cs[..Min(leng, |cs|)])
  {
    hide EncodeAll, SubstrOf, CountFrom, UpToNul, Off, Stop;
    LenOfText(cs);
    if leng == 0 {
      CutNothing(cs, 0, leng);
      EncodeNothing();
      assert cs[..0] == [];
    } else if leng < UpToNul(cs) {
      CutShort(cs, leng);
    } else {
      CutWhole(EncodeAll(cs), leng);
      assert cs[..|cs|] == cs;
    }
  }

  lemma CutShort(cs: seq<Scalar>, leng: nat)
    requires 0 < leng < UpToNul(cs) && leng <= NPOS
    ensures CountFrom(EncodeAll(cs), 0).Some? && SubstrOf(EncodeAll(cs), 0, leng) == EncodeAll(cs[..leng])
  {
    hide EncodeAll, SubstrOf, CountFrom, UpToNul, Off, Stop;
    OffZero(cs);
    SubstrOfText(cs, 0, leng);
    StopHere(0, leng);
    var n := Min(Stop(0, leng), |cs|);
    assert n == leng;
    SuffixAt(cs, leng);
  }

  lemma StopHere(start: nat, leng: nat)
    requires leng <= NPOS && (leng == NPOS || start + leng < TWO_64)
    ensures Stop(start, leng) == if leng == NPOS then NPOS else start + leng
  {
  }

  lemma CutWhole(s: seq<byte>, leng: nat)
    requires leng != 0 && CountFrom(s, 0).Some? && leng >= CountFrom(s, 0).value
    ensures SubstrOf(s, 0, leng) == s
  {
  }

  lemma EncodeNothing()
    ensures EncodeAll([]) == []
  {
  }

  /** When the bytes after character `start` are no more than the scan takes. */
  predicate TakesTheRest(cs: seq<Scalar>, start: nat, leng: nat)
    requires start < |cs|
  {
    |EncodeAll(cs)| <= Off(cs, start) + Off(cs, Min(Stop(start, leng), |cs|))
  }

  /** The slice is right exactly when it is empty; or starts at the front and ends before the first
      NUL or after all text; or reaches the end, which the sum of start and length must say without
      wrapping, or else be made up for by the bytes taken. In the middle it is always too long. */
  lemma CutExactly(cs: seq<Scalar>, start: nat, leng: nat)
    requires |cs| < NPOS && start <= NPOS && leng <= NPOS
    ensures CountFrom(EncodeAll(cs), 0).Some?
    ensures SubstrOf(EncodeAll(cs), start, leng) == EncodeAll(Slice(cs, start, leng))
            <==> || leng == 0 || start >= |cs|
                 || (if start == 0 then leng < UpToNul(cs) || leng >= |cs|
                     else start + leng >= |cs| && (leng != NPOS && start + leng >= TWO_64 ==> TakesTheRest(cs, start, leng)))
  {
    hide Encode, EncodeAll, Off, Bounds, CountFrom, UpToNul, TakesTheRest;
    LenOfText(cs);
    if leng == 0 || start >= |cs| {
      SliceNothing(cs, start, leng);
      CutNothing(cs, start, leng);
    } else if start == 0 {
      SliceFront(cs, leng);
      if leng < UpToNul(cs) || leng >= |cs| {
        CutFromFront(cs, leng);
      } else {
        SuffixAt(cs, leng);
      }
    } else {
      CutLater(cs, start, leng);
    }
  }

  lemma CutNothing(cs: seq<Scalar>, start: nat, leng: nat)
    requires leng == 0 || start >= |cs|
    ensures CountFrom(EncodeAll(cs), 0).Some? && SubstrOf(EncodeAll(cs), start, leng) == []
  {
    hide Bounds, CountFrom;
    LenOfText(cs);
    if leng != 0 && !(start == 0 && leng >= UpToNul(cs)) {
      SubstrOfText(cs, start, leng);
    }
  }

  lemma CutLater(cs: seq<Scalar>, start: nat, leng: nat)
    requires 0 < start < |cs| < NPOS && 0 < leng <= NPOS
    ensures SubstrOf(EncodeAll(cs), start, leng) == EncodeAll(Slice(cs, start, leng))
            <==> start + leng >= |cs| && (leng != NPOS && start + leng >= TWO_64 ==> TakesTheRest(cs, start, leng))
  {
    hide EncodeAll, Off, SubstrOf, UpToNul, Stop;
    var end, taken := Min(start + leng, |cs|), Min(Stop(start, leng), |cs|);
    SubstrOfText(cs, start, leng);
    SuffixAt(cs, start);
    SuffixAt(cs, taken);
    OffMonotone(cs, start, end);
    OffZero(cs);
    OffMonotone(cs, 0, start);
    SliceBytes(cs, start, end);
    SubstrSlice(EncodeAll(cs), Off(cs, start), Off(cs, end), Off(cs, taken));
    SuffixAt(cs, end);
    if leng == NPOS || start + leng < TWO_64 {
      StopHere(start, leng);
      assert taken == end;
    }
  }

  /** Taking `count` bytes from `from` gives the bytes up to `end` exactly when both end there. */
  lemma SubstrSlice(s: seq<byte>, from: nat, end: nat, count: nat)
    requires from <= end <= |s|
    ensures Substr(s, from, count) == s[from..end] <==> Min(from + count, |s|) == end
  {
    assert |Substr(s, from, count)| == Min(from + count, |s|) - from;
  }

  /** The smallest failure: the second of three characters. */
  lemma CutInTheMiddle()
    ensures SubstrOf([97, 98, 99], 1, 1) == [98, 99]
  {
    var s: seq<byte> := [97, 98, 99];
    hide Bounds;
    BoundsStep(s, 3);
    BoundsStep(s, 2);
    BoundsStep(s, 1);
    BoundsStep(s, 0);
    var b3: seq<nat> := [3];
    assert Bounds(s, 2) == Some([2] + b3) && [2] + b3 == [2, 3];
    assert Bounds(s, 1) == Some([1] + ([2] + b3)) && [1] + ([2] + b3) == [1, 2, 3];
    assert Bounds(s, 0) == Some([0] + ([1] + ([2] + b3))) && [0] + ([1] + ([2] + b3)) == [0, 1, 2, 3];
  }

  lemma SliceFront(cs: seq<Scalar>, leng: nat)
    ensures Slice(cs, 0, leng) == cs[..Min(leng, |cs|)]
  {
  }

  lemma SliceNothing(cs: seq<Scalar>, start: nat, leng: nat)
    requires leng == 0 || start >= |cs|
    ensures EncodeAll(Slice(cs, start, leng)) == []
  {
  }

  lemma SliceBytes(cs: seq<Scalar>, start: nat, end: nat)
    requires start <= end <= |cs|
    ensures Off(cs, start) <= Off(cs, end) <= |EncodeAll(cs)|
    ensures EncodeAll(cs[start..end]) == EncodeAll(cs)[Off(cs, start)..Off(cs, end)]
  {
    hide EncodeAll;
    SuffixAt(cs, end);
    assert cs[..end] == cs[..start] + cs[start..end];
    EncodeConcat(cs[..start], cs[start..end]);
    var s, a, b := EncodeAll(cs), EncodeAll(cs[..start]), EncodeAll(cs[start..end]);
    assert s[..Off(cs, end)] == a + b;
    assert s[Off(cs, start)..Off(cs, end)] == (a + b)[|a|..];
  }

  // ------------------------------------------------------------- malformed text

  /** The scan goes over valid text in front of other bytes, character by character. */
  lemma {:induction false} BoundsOverText(cs: seq<Scalar>, k: nat, rest: seq<byte>)
    requires k <= |cs|
    ensures Bounds(EncodeAll(cs) + rest, |EncodeAll(cs)|).None? ==> Bounds(EncodeAll(cs) + rest, Off(cs, k)).None?
    decreases |cs| - k
  {
    hide Off, Encode, EncodeAll, Bounds;
    var s, t := EncodeAll(cs), EncodeAll(cs) + rest;
    SuffixAt(cs, k);
    if k < |cs| {
      AtBoundary(cs, k);
      NextOff(cs, k);
      assert t[Off(cs, k)] == s[Off(cs, k)];
      BoundsStep(t, Off(cs, k));
      BoundsOverText(cs, k + 1, rest);
    }
  }

  /** A byte where a character should begin that cannot begin one makes every cut that does not take
      the whole text empty: the bytes from 80 to BF, and from F8 on. */
  lemma BadLeadByte(cs: seq<Scalar>, c: byte, rest: seq<byte>, start: nat, leng: nat)
    requires 0x80 <= c < 0xC0 || 0xF8 <= c
    requires start > 0
    ensures SubstrOf(EncodeAll(cs) + ([c] + rest), start, leng) == []
  {
    hide Encode, EncodeAll, Bounds, CountFrom;
    var t := EncodeAll(cs) + ([c] + rest);
    assert t[|EncodeAll(cs)|] == c;
    BoundsStep(t, |EncodeAll(cs)|);
    OffZero(cs);
    BoundsOverText(cs, 0, [c] + rest);
  }

  /** How `utf8len` steps over any first byte, and when it leaves the string. */
  lemma CountSteps(s: seq<byte>, i: nat)
    ensures i > |s| ==> CountFrom(s, i) == None
    ensures i == |s| || (i < |s| && s[i] == 0) ==> CountFrom(s, i) == Some(0)
    ensures i < |s| && s[i] != 0 ==>
              var n := if s[i] <= 0x7F then 1 else if s[i] <= 0xDF then 2 else if s[i] <= 0xEF then 3 else 4;
              CountFrom(s, i) == if CountFrom(s, i + n).None? then None else Some(1 + CountFrom(s, i + n).value)
  {
  }

  // -------------------------------------------------------------------- validate

  ghost function Validated(value: seq<byte>, min: nat, max: nat): (r: Option<seq<byte>>)
    requires CountFrom(value, 0).Some?
  {
    var n := CountFrom(value, 0).value;
    if n < min then None else if n > max then Some(SubstrOf(value, 0, max)) else Some(value)
  }

  /** `validate`: too short throws, too long is cut. */
  method Validate(value: seq<byte>, min: nat, max: nat) returns (r: Option<seq<byte>>)
    requires |value| < TWO_63 && max <= NPOS && CountFrom(value, 0).Some?
    ensures r == Validated(value, min, max)
  {
    hide CountFrom, SubstrOf;
    var n := Utf8Len(value);
    if n < min {
      return None;
    }
    if n > max {
      var cut := Utf8Substr(value, 0, max);
      return Some(cut);
    }
    return Some(value);
  }

  /** Valid text that passes comes back as its own first characters, cut only to `max`, and then has
      between `min` and `max` characters before its first NUL. */
  lemma ValidatedLength(cs: seq<Scalar>, min: nat, max: nat)
    requires max <= NPOS
    ensures CountFrom(EncodeAll(cs), 0).Some?
    ensures var n, kept := UpToNul(cs), if UpToNul(cs) > max then cs[..max] else cs;
            && Validated(EncodeAll(cs), min, max) == (if n < min then None else Some(EncodeAll(kept)))
            && (min <= n && min <= max ==> min <= UpToNul(kept) <= max)
            && (0 !in cs ==> UpToNul(kept) == |kept|)
  {
    hide EncodeAll, CountFrom, SubstrOf;
    LenOfText(cs);
    if UpToNul(cs) > max {
      CutFromFront(cs, max);
      PrefixUpToNul(cs, max);
    }
  }

  lemma {:induction false} PrefixUpToNul(cs: seq<Scalar>, n: nat)
    requires n <= UpToNul(cs)
    ensures UpToNul(cs[..n]) == n
  {
    if n > 0 {
      PrefixUpToNul(cs[1..], n - 1);
      assert cs[..n][1..] == cs[1..][..n - 1];
    }
  }
}

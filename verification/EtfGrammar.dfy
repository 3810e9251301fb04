/** The external term format as a grammar of its own, in bytes and literal tags. The parser accepts
    exactly this grammar and gives each term its meaning; the printer writes part of it. */
module EtfGrammar {
  import opened Bytes
  import opened EtfJson
  import opened EtfTerm
  import opened EtfRoundTrip

  type word = x: int | 0 <= x < 0x1_0000_0000

  /** A term on the wire. The `Cut` terms announce more bytes than follow in the whole message. */
  datatype Term =
    | SmallInteger(b: byte)
    | Integer(w: word)
    | OldFloat(text: seq<byte>)
    | NewFloat(bits: u64)
    | Atom(name: seq<byte>)
    | SmallAtom(name: seq<byte>)
    | SmallTuple(items: seq<Term>)
    | LargeTuple(items: seq<Term>)
    | Nil
    | ByteString(bytes: seq<byte>)
    | List(items: seq<Term>, tail: byte)
    | Map(entries: seq<Entry>)
    | Binary(bytes: seq<byte>)
    | SmallBig(sign: byte, magnitude: seq<byte>)
    | LargeBig(sign: byte, magnitude: seq<byte>)
    | Reference(node: Term, id: word, creation: byte)
    | NewReference(node: Term, creation: byte, ids: seq<word>)
    | Port(node: Term, id: word, creation: byte)
    | Pid(node: Term, id: word, serial: word, creation: byte)
    | Export(mod: Term, fun: Term, arity: Term)
    | CutAtom(announced: nat)
    | CutSmallAtom(announced: nat)
    | CutBinary(announced: nat)
    | CutFloat

  datatype Entry = Entry(key: Term, value: Term)

  // --------------------------------------------------------------------- bytes

  function U16(n: nat): (s: seq<byte>)
    requires n < 0x1_0000
    ensures |s| == 2
  {
    [n / 256, n % 256]
  }

  function U32(n: word): (s: seq<byte>)
    ensures |s| == 4
  {
    U16(n / 0x1_0000) + U16(n % 0x1_0000)
  }

  function U64(n: u64): (s: seq<byte>)
    ensures |s| == 8
  {
    U32(n / 0x1_0000_0000) + U32(n % 0x1_0000_0000)
  }

  function Words(ids: seq<word>): (s: seq<byte>)
    ensures |s| == 4 * |ids|
  {
    if ids == [] then [] else U32(ids[0]) + Words(ids[1..])
  }

  /** Lengths fit their fields, and a cut term is followed by less than it announces; `after` is how
      many bytes of the message follow. */
  predicate Fits(x: Term, after: nat)
    decreases x
  {
    match x
    case OldFloat(text) => |text| == 31
    case Atom(name) => |name| < 0x1_0000
    case SmallAtom(name) => |name| < 0x100
    case SmallTuple(items) => |items| < 0x100 && FitsItems(items, after)
    case LargeTuple(items) => |items| < 0x1_0000_0000 && FitsItems(items, after)
    case ByteString(bytes) => |bytes| < 0x1_0000
    case List(items, _) => |items| < 0x1_0000_0000 && FitsItems(items, 1 + after)
    case Map(entries) => |entries| < 0x1_0000_0000 && FitsEntries(entries, after)
    case Binary(bytes) => |bytes| < 0x1_0000_0000
    case SmallBig(_, magnitude) => |magnitude| < 0x100
    case LargeBig(_, magnitude) => |magnitude| < 0x1_0000_0000
    case Reference(node, _, _) => Fits(node, 5 + after)
    case NewReference(node, _, ids) => |ids| < 0x1_0000 && Fits(node, 1 + 4 * |ids| + after)
    case Port(node, _, _) => Fits(node, 5 + after)
    case Pid(node, _, _, _) => Fits(node, 9 + after)
    case Export(m, f, a) =>
      Fits(m, |Wire(f)| + |Wire(a)| + after) && Fits(f, |Wire(a)| + after) && Fits(a, after)
    case CutAtom(announced) => after < announced < 0x1_0000
    case CutSmallAtom(announced) => after < announced < 0x100
    case CutBinary(announced) => after < announced < 0x1_0000_0000
    case CutFloat => after < 31
    case _ => true
  }

  predicate FitsItems(items: seq<Term>, after: nat)
    decreases items
  {
    items == [] || (Fits(items[0], |WireItems(items[1..])| + after) && FitsItems(items[1..], after))
  }

  predicate FitsEntries(entries: seq<Entry>, after: nat)
    decreases entries
  {
    entries == [] || (FitsEntry(entries[0], |WireEntries(entries[1..])| + after) && FitsEntries(entries[1..], after))
  }

  predicate FitsEntry(e: Entry, after: nat)
    decreases e
  {
    Fits(e.key, |Wire(e.value)| + after) && Fits(e.value, after)
  }

  /** A length field; the length is taken modulo the width only where it does not fit. */
  function Length(w: nat, n: nat): (s: seq<byte>)
    requires w == 1 || w == 2 || w == 4
    ensures |s| == w
  {
    if w == 1 then [n % 0x100] else if w == 2 then U16(n % 0x1_0000) else U32(n % 0x1_0000_0000)
  }

  function Wire(x: Term): (s: seq<byte>)
    ensures |s| >= 1
    decreases x
  {
    match x
    case NewFloat(bits) => [70] + U64(bits)
    case SmallInteger(b) => [97, b]
    case Integer(w) => [98] + U32(w)
    case OldFloat(text) => [99] + text
    case CutFloat => [99]
    case Atom(name) => [100] + Length(2, |name|) + name
    case CutAtom(announced) => [100] + Length(2, announced)
    case Reference(node, id, creation) => [101] + (Wire(node) + (U32(id) + [creation]))
    case Port(node, id, creation) => [102] + (Wire(node) + (U32(id) + [creation]))
    case Pid(node, id, serial, creation) => [103] + (Wire(node) + (U32(id) + U32(serial) + [creation]))
    case SmallTuple(items) => [104] + Length(1, |items|) + WireItems(items)
    case LargeTuple(items) => [105] + Length(4, |items|) + WireItems(items)
    case Nil => [106]
    case ByteString(bytes) => [107] + Length(2, |bytes|) + bytes
    case List(items, tail) => [108] + Length(4, |items|) + (WireItems(items) + [tail])
    case Binary(bytes) => [109] + Length(4, |bytes|) + bytes
    case CutBinary(announced) => [109] + Length(4, announced)
    case SmallBig(sign, magnitude) => [110] + Length(1, |magnitude|) + ([sign] + magnitude)
    case LargeBig(sign, magnitude) => [111] + Length(4, |magnitude|) + ([sign] + magnitude)
    case Export(m, f, a) => [113] + (Wire(m) + (Wire(f) + Wire(a)))
    case NewReference(node, creation, ids) => [114] + Length(2, |ids|) + (Wire(node) + ([creation] + Words(ids)))
    case SmallAtom(name) => [115] + Length(1, |name|) + name
    case CutSmallAtom(announced) => [115] + Length(1, announced)
    case Map(entries) => [116] + Length(4, |entries|) + WireEntries(entries)
  }

  function WireItems(items: seq<Term>): (s: seq<byte>)
    decreases items
  {
    if items == [] then [] else Wire(items[0]) + WireItems(items[1..])
  }

  function WireEntries(entries: seq<Entry>): (s: seq<byte>)
    decreases entries
  {
    if entries == [] then [] else WireEntry(entries[0]) + WireEntries(entries[1..])
  }

  function WireEntry(e: Entry): (s: seq<byte>)
    decreases e
  {
    Wire(e.key) + Wire(e.value)
  }

  // ------------------------------------------------------------------- meaning

  /** ASCII text. */
  function Ascii(s: string): (r: seq<byte>)
    ensures |r| == |s|
  {
    seq(|s|, i requires 0 <= i < |s| => s[i] as int % 256)
  }

  function AtomMeaning(name: seq<byte>): (v: Json) {
    if name == Ascii("null") || name == Ascii("nil") then Null
    else if name == Ascii("true") then Bool(true)
    else if name == Ascii("false") then Bool(false)
    else Str(name)
  }

  function Signed(w: word): (n: JsonInt) {
    if w < 0x8000_0000 then w else w - 0x1_0000_0000
  }

  function SignedAll(ids: seq<word>): (r: seq<Json>)
    ensures |r| == |ids|
  {
    if ids == [] then [] else [Int(Signed(ids[0]))] + SignedAll(ids[1..])
  }

  /** The number that magnitude bytes stand for, the last one being the most significant. */
  function Magnitude(m: seq<byte>): (n: nat) {
    if m == [] then 0 else m[|m| - 1] * Pow256(|m| - 1) + Magnitude(m[..|m| - 1])
  }

  /** The text of a big number. A negative one beyond 63 bits wraps round to a positive one. */
  function BigText(sign: byte, n: nat): (s: seq<byte>) {
    if sign == 0 then Decimal(n)
    else if n <= 0x8000_0000_0000_0000 then Decimal(-1 * n)
    else Decimal(0x1_0000_0000_0000_0000 - n)
  }

  function BigMeaning(sign: byte, magnitude: seq<byte>): (v: Option<Json>) {
    if |magnitude| > 8 then None else Some(Str(BigText(sign, Magnitude(magnitude))))
  }

  /** The text that a key stands for; only strings and numbers have one. */
  function KeyMeaning(lib: FloatLib, key: Json): (r: Option<seq<byte>>) {
    if key.Str? then Some(key.s)
    else if key.Int? then Some(Decimal(if key.n < 0 then key.n + 0x1_0000_0000_0000_0000 else key.n))
    else if key.Float? then Some(Decimal(lib.toU64(key.bits)))
    else None
  }

  function FloatMeaning(lib: FloatLib, text: seq<byte>): (v: Json) {
    if lib.scan(text).Some? then Float(lib.scan(text).value) else Null
  }

  function Labelled(creation: byte, id: Json, node: Json, more: seq<Field>): (v: Json) {
    Obj([Field(Ascii("creation"), Int(creation)), Field(Ascii("id"), id), Field(Ascii("node"), node)] + more)
  }

  /** What a term means, or None when it is refused. */
  function Meaning(lib: FloatLib, x: Term): (v: Option<Json>)
    decreases x
  {
    match x
    case SmallInteger(b) => Some(Int(b))
    case Integer(w) => Some(Int(Signed(w)))
    case OldFloat(text) => Some(FloatMeaning(lib, text))
    case NewFloat(bits) => Some(Float(bits))
    case Atom(name) => Some(AtomMeaning(name))
    case SmallAtom(name) => Some(AtomMeaning(name))
    case SmallTuple(items) => ArrOf(MeaningItems(lib, items))
    case LargeTuple(items) => ArrOf(MeaningItems(lib, items))
    case Nil => Some(Arr([]))
    case ByteString(bytes) => Some(Arr(seq(|bytes|, i requires 0 <= i < |bytes| => Int(bytes[i]))))
    case List(items, tail) =>
      var r := ArrOf(MeaningItems(lib, items));
      if r.Some? && tail != 106 then Some(Null) else r
    case Map(entries) =>
      var r := MeaningEntries(lib, entries, []);
      if r.None? then None else if entries == [] then Some(Null) else Some(Obj(r.value))
    case Binary(bytes) => Some(Str(bytes))
    case SmallBig(sign, magnitude) => BigMeaning(sign, magnitude)
    case LargeBig(sign, magnitude) => BigMeaning(sign, magnitude)
    case Reference(node, id, creation) =>
      var n := Meaning(lib, node);
      if n.None? then None else Some(Labelled(creation, Arr([Int(Signed(id))]), n.value, []))
    case NewReference(node, creation, ids) =>
      var n := Meaning(lib, node);
      if n.None? then None else Some(Labelled(creation, Arr(SignedAll(ids)), n.value, []))
    case Port(node, id, creation) =>
      var n := Meaning(lib, node);
      if n.None? then None else Some(Labelled(creation, Int(id), n.value, []))
    case Pid(node, id, serial, creation) =>
      var n := Meaning(lib, node);
      if n.None? then None else Some(Labelled(creation, Int(id), n.value, [Field(Ascii("serial"), Int(serial))]))
    case Export(m, f, a) =>
      var m', f', a' := Meaning(lib, m), Meaning(lib, f), Meaning(lib, a);
      if m'.None? || f'.None? || a'.None? then None
      else Some(Obj([Field(Ascii("arity"), a'.value), Field(Ascii("fun"), f'.value), Field(Ascii("mod"), m'.value)]))
    case CutAtom(_) => Some(Null)
    case CutSmallAtom(_) => Some(Null)
    case CutBinary(_) => Some(Null)
    case CutFloat => Some(Null)
  }

  function ArrOf(items: Option<seq<Json>>): (v: Option<Json>) {
    if items.None? then None else Some(Arr(items.value))
  }

  function MeaningItems(lib: FloatLib, items: seq<Term>): (r: Option<seq<Json>>)
    ensures r.Some? ==> |r.value| == |items|
    decreases items
  {
    if items == [] then Some([])
    else
      var h, t := Meaning(lib, items[0]), MeaningItems(lib, items[1..]);
      if h.None? || t.None? then None else Some([h.value] + t.value)
  }

  /** Entries are stored one after the other; the first value for a key wins. */
  function MeaningEntries(lib: FloatLib, entries: seq<Entry>, acc: seq<Field>): (r: Option<seq<Field>>)
    decreases entries
  {
    if entries == [] then Some(acc)
    else
      var f := MeaningEntry(lib, entries[0]);
      if f.None? then None else MeaningEntries(lib, entries[1..], Emplace(acc, f.value.key, f.value.value))
  }

  function MeaningEntry(lib: FloatLib, e: Entry): (r: Option<Field>)
    decreases e
  {
    var k, v := Meaning(lib, e.key), Meaning(lib, e.value);
    if k.None? || v.None? || KeyMeaning(lib, k.value).None? then None
    else Some(Field(KeyMeaning(lib, k.value).value, v.value))
  }

  // -------------------------------------------------------- one tag at a time

  function Bump(r: Parsed): (r': Parsed) {
    if r.Fail? then Fail else Done(r.value, 1 + r.used)
  }

  /** Which tag leads where, and that no other tag leads anywhere. */
  lemma Dispatch(lib: FloatLib, tag: byte, t: seq<byte>)
    ensures Parse(lib, [tag] + t) ==
            Bump(if tag == 70 then ParseNewFloat(t)
                 else if tag == 97 then ParseByte(t)
                 else if tag == 98 then ParseInteger(t)
                 else if tag == 99 then ParseFloat(lib, t)
                 else if tag == 100 then ParseAtom(t, 2)
                 else if tag == 101 then ParseReference(lib, t)
                 else if tag == 102 then ParsePort(lib, t)
                 else if tag == 103 then ParsePid(lib, t)
                 else if tag == 104 then ParseTuple(lib, t, 1)
                 else if tag == 105 then ParseTuple(lib, t, 4)
                 else if tag == 106 then Done(Arr([]), 0)
                 else if tag == 107 then ParseByteList(t)
                 else if tag == 108 then ParseList(lib, t)
                 else if tag == 109 then ParseBinary(t)
                 else if tag == 110 then ParseBigint(t, 1)
                 else if tag == 111 then ParseBigint(t, 4)
                 else if tag == 113 then ParseExport(lib, t)
                 else if tag == 114 then ParseNewReference(lib, t)
                 else if tag == 115 then ParseAtom(t, 1)
                 else if tag == 116 then ParseMap(lib, t)
                 else Fail)
  {
    hide ParseNewFloat, ParseByte, ParseInteger, ParseFloat, ParseAtom, ParseReference, ParsePort, ParsePid;
    hide ParseTuple, ParseByteList, ParseList, ParseBinary, ParseBigint, ParseExport, ParseNewReference, ParseMap;
    var s := [tag] + t;
    assert s[0] == tag && s[1..] == t;
  }

  // ------------------------------------------------------------ fields and bytes

  lemma FromTwo(a: byte, b: byte)
    ensures FromBigEndian([a, b]) == 256 * a + b
  {
    assert [a, b][..1] == [a] && [a][..0] == [];
  }

  lemma FromFour(a: byte, b: byte, c: byte, d: byte)
    ensures FromBigEndian([a, b, c, d]) == 0x100_0000 * a + 0x1_0000 * b + 0x100 * c + d
  {
    assert [a, b, c, d][..3] == [a, b, c] && [a, b, c][..2] == [a, b];
    FromTwo(a, b);
  }

  lemma U32Reads(n: word)
    ensures FromBigEndian(U32(n)) == n
  {
    hide FromBigEndian;
    var hi, lo := n / 0x1_0000, n % 0x1_0000;
    FromFour(hi / 256, hi % 256, lo / 256, lo % 256);
    assert U32(n) == [hi / 256, hi % 256, lo / 256, lo % 256];
  }

  lemma U32Writes(s: seq<byte>)
    requires |s| == 4
    ensures FromBigEndian(s) < 0x1_0000_0000 && U32(FromBigEndian(s)) == s
  {
    hide FromBigEndian;
    FromFour(s[0], s[1], s[2], s[3]);
    assert s == [s[0], s[1], s[2], s[3]];
    var n, hi, lo := FromBigEndian(s), 256 * (s[0] as int) + s[1], 256 * (s[2] as int) + s[3];
    assert n == 0x1_0000 * hi + lo;
    assert n / 0x1_0000 == hi && n % 0x1_0000 == lo;
    assert U16(hi) == [s[0], s[1]] && U16(lo) == [s[2], s[3]];
  }

  /** A field in front of other bytes: what it reads as, and what follows it. */
  lemma LengthReads(w: nat, n: nat, rest: seq<byte>)
    requires w == 1 || w == 2 || w == 4
    requires n < if w == 1 then 0x100 else if w == 2 then 0x1_0000 else 0x1_0000_0000
    ensures var t := Length(w, n) + rest;
            |t| == w + |rest| && FromBigEndian(t[..w]) == n && t[w..] == rest
  {
    hide FromBigEndian, Length;
    var t := Length(w, n) + rest;
    assert t[..w] == Length(w, n);
    LengthIs(w, n);
  }

  lemma LengthIs(w: nat, n: nat)
    requires w == 1 || w == 2 || w == 4
    requires n < if w == 1 then 0x100 else if w == 2 then 0x1_0000 else 0x1_0000_0000
    ensures FromBigEndian(Length(w, n)) == n
  {
    hide FromBigEndian, U32;
    if w == 1 {
      assert Length(w, n) == [n];
      OneByte([n]);
      assert [n][..1] == [n];
    } else if w == 2 {
      FromTwo(n / 256, n % 256);
    } else {
      U32Reads(n);
    }
  }

  /** The same the other way: the front of any bytes is such a field. */
  lemma LengthWrites(w: nat, t: seq<byte>)
    requires (w == 1 || w == 2 || w == 4) && |t| >= w
    ensures var n := FromBigEndian(t[..w]);
            && n < (if w == 1 then 0x100 else if w == 2 then 0x1_0000 else 0x1_0000_0000)
            && t == Length(w, n) + t[w..]
  {
    hide FromBigEndian, U32;
    var f := t[..w];
    if w == 1 {
      OneByte(t);
      assert f == [t[0]];
    } else if w == 2 {
      FromTwo(t[0], t[1]);
      assert f == [t[0], t[1]];
    } else {
      U32Writes(f);
    }
    assert t == f + t[w..];
  }

  lemma {:induction false} MagnitudeReads(m: seq<byte>)
    ensures FromLittleEndian(m) == Magnitude(m)
  {
    if m != [] {
      MagnitudeReads(m[1..]);
      MagnitudeShift(m);
    }
  }

  lemma {:induction false} MagnitudeShift(m: seq<byte>)
    requires m != []
    ensures Magnitude(m) == m[0] + 256 * Magnitude(m[1..])
  {
    var k := |m| - 1;
    if k == 0 {
      assert m[..0] == [] && m[1..] == [];
    } else {
      MagnitudeShift(m[..k]);
      assert m[1..][..k - 1] == m[..k][1..];
      assert m[k] * Pow256(k) == 256 * (m[k] * Pow256(k - 1));
    }
  }

  // ------------------------------------------------------- the grammar is accepted

  function Outcome(v: Option<Json>, used: nat): (r: Parsed) {
    if v.None? then Fail else Done(v.value, used)
  }

  /** A term in front of any bytes that it allows to follow is read for what it means, to its end and
      not further; or refused, if it means nothing. */
  lemma {:induction false} Reads(lib: FloatLib, x: Term, rest: seq<byte>)
    requires Fits(x, |rest|)
    ensures Parse(lib, Wire(x) + rest) == Outcome(Meaning(lib, x), |Wire(x)|)
    decreases x, 1
  {
    hide Parse, Meaning, Wire;
    match x
    case SmallInteger(_) => ReadsNumber(lib, x, rest);
    case Integer(_) => ReadsNumber(lib, x, rest);
    case NewFloat(_) => ReadsNumber(lib, x, rest);
    case OldFloat(_) => ReadsFloat(lib, x, rest);
    case CutFloat => ReadsFloat(lib, x, rest);
    case Nil => ReadsNil(lib, rest);
    case Atom(_) => ReadsAtom(lib, x, rest);
    case SmallAtom(_) => ReadsAtom(lib, x, rest);
    case CutAtom(_) => ReadsAtom(lib, x, rest);
    case CutSmallAtom(_) => ReadsAtom(lib, x, rest);
    case Binary(_) => ReadsBinary(lib, x, rest);
    case CutBinary(_) => ReadsBinary(lib, x, rest);
    case ByteString(bytes) => ReadsByteString(lib, bytes, rest);
    case SmallBig(sign, magnitude) => ReadsBig(lib, x, 1, sign, magnitude, rest);
    case LargeBig(sign, magnitude) => ReadsBig(lib, x, 4, sign, magnitude, rest);
    case SmallTuple(items) => ReadsTuple(lib, x, 1, items, rest);
    case LargeTuple(items) => ReadsTuple(lib, x, 4, items, rest);
    case List(items, tail) => ReadsList(lib, items, tail, rest);
    case Map(entries) => ReadsMap(lib, entries, rest);
    case Reference(node, id, creation) => ReadsReference(lib, node, id, creation, rest);
    case NewReference(node, creation, ids) => ReadsNewReference(lib, node, creation, ids, rest);
    case Port(node, id, creation) => ReadsPort(lib, node, id, creation, rest);
    case Pid(node, id, serial, creation) => ReadsPid(lib, node, id, serial, creation, rest);
    case Export(m, f, a) => ReadsExport(lib, m, f, a, rest);
  }

  lemma U64Reads(bits: u64)
    ensures FromBigEndian(U64(bits)) == bits
  {
    hide FromBigEndian, U32;
    var hi, lo := bits / 0x1_0000_0000, bits % 0x1_0000_0000;
    U32Reads(hi);
    U32Reads(lo);
    FromTwoWords(U32(hi), U32(lo));
  }

  lemma FromTwoWords(a: seq<byte>, b: seq<byte>)
    requires |a| == 4 && |b| == 4
    ensures FromBigEndian(a + b) == 0x1_0000_0000 * FromBigEndian(a) + FromBigEndian(b)
  {
    hide FromBigEndian;
    FromConcat(a, b);
    Pow256Values();
  }

  lemma {:induction false} FromConcat(a: seq<byte>, b: seq<byte>)
    ensures FromBigEndian(a + b) == Pow256(|b|) * FromBigEndian(a) + FromBigEndian(b)
  {
    if b == [] {
      assert a + b == a;
    } else {
      var k := |b| - 1;
      FromConcat(a, b[..k]);
      var s := a + b;
      assert s[..|s| - 1] == a + b[..k] && s[|s| - 1] == b[k];
      FromUnfold(s);
      FromUnfold(b);
      hide FromBigEndian;
      Shifted(Pow256(k), FromBigEndian(a), FromBigEndian(b[..k]), b[k]);
    }
  }

  lemma FromUnfold(s: seq<byte>)
    requires s != []
    ensures FromBigEndian(s) == FromBigEndian(s[..|s| - 1]) * 256 + s[|s| - 1]
  {
  }

  lemma Shifted(p: nat, x: nat, y: nat, z: nat)
    ensures (p * x + y) * 256 + z == (256 * p) * x + (y * 256 + z)
  {
  }

  lemma ReadsNumber(lib: FloatLib, x: Term, rest: seq<byte>)
    requires x.SmallInteger? || x.Integer? || x.NewFloat?
    ensures Parse(lib, Wire(x) + rest) == Outcome(Meaning(lib, x), |Wire(x)|)
  {
    hide Parse, FromBigEndian, U32;
    match x
    case SmallInteger(b) =>
      ConcatAssoc([97], [b], rest);
      assert [97] + [b] == [97, b];
      Dispatch(lib, 97, [b] + rest);
    case Integer(w) =>
      var t := U32(w) + rest;
      ConcatAssoc([98], U32(w), rest);
      Dispatch(lib, 98, t);
      U32Reads(w);
      assert t[..4] == U32(w);
      WrapsWord(w);
    case NewFloat(bits) =>
      var t := U64(bits) + rest;
      ConcatAssoc([70], U64(bits), rest);
      Dispatch(lib, 70, t);
      U64Reads(bits);
      assert t[..8] == U64(bits);
  }

  lemma WrapsWord(w: word)
    ensures ToInt32(w) == Signed(w)
  {
  }

  lemma ReadsNil(lib: FloatLib, rest: seq<byte>)
    ensures Parse(lib, Wire(Nil) + rest) == Outcome(Meaning(lib, Nil), |Wire(Nil)|)
  {
    hide Parse;
    Dispatch(lib, 106, rest);
  }

  lemma ReadsFloat(lib: FloatLib, x: Term, rest: seq<byte>)
    requires (x.OldFloat? || x.CutFloat?) && Fits(x, |rest|)
    ensures Parse(lib, Wire(x) + rest) == Outcome(Meaning(lib, x), |Wire(x)|)
  {
    hide Parse;
    if x.OldFloat? {
      var t := x.text + rest;
      ConcatAssoc([99], x.text, rest);
      Dispatch(lib, 99, t);
      assert t[..31] == x.text;
    } else {
      Dispatch(lib, 99, rest);
    }
  }

  lemma AtomNames()
    ensures A_NULL == Ascii("null") && A_NIL == Ascii("nil") && A_TRUE == Ascii("true") && A_FALSE == Ascii("false")
  {
  }

  /** The width and the announced length of a term that starts with a tag and a length. */
  lemma Headed(lib: FloatLib, tag: byte, w: nat, n: nat, body: seq<byte>, rest: seq<byte>)
    requires w == 1 || w == 2 || w == 4
    requires n < if w == 1 then 0x100 else if w == 2 then 0x1_0000 else 0x1_0000_0000
    ensures var t := Length(w, n) + (body + rest);
            && [tag] + Length(w, n) + body + rest == [tag] + t
            && |t| == w + |body| + |rest| && FromBigEndian(t[..w]) == n && t[w..] == body + rest
  {
    hide FromBigEndian, Length;
    LengthReads(w, n, body + rest);
    ConcatAssoc([tag] + Length(w, n), body, rest);
    ConcatAssoc([tag], Length(w, n), body + rest);
  }

  lemma AtomBody(t: seq<byte>, w: nat, n: nat, name: seq<byte>, rest: seq<byte>)
    requires |t| == w + |name| + |rest| && FromBigEndian(t[..w]) == n && t[w..] == name + rest
    ensures n == |name| ==> ParseAtom(t, w) == Done(AtomMeaning(name), w + n)
    ensures name == [] && |rest| < n ==> ParseAtom(t, w) == Done(Null, w)
  {
    hide FromBigEndian;
    AtomNames();
    if n == |name| {
      assert t[w..w + n] == (name + rest)[..n] == name;
      hide Ascii;
    }
  }

  lemma ReadsAtom(lib: FloatLib, x: Term, rest: seq<byte>)
    requires (x.Atom? || x.SmallAtom? || x.CutAtom? || x.CutSmallAtom?) && Fits(x, |rest|)
    ensures Parse(lib, Wire(x) + rest) == Outcome(Meaning(lib, x), |Wire(x)|)
  {
    hide Parse, ParseAtom, FromBigEndian, Length, AtomMeaning;
    var tag, w := if x.Atom? || x.CutAtom? then 100 else 115, if x.Atom? || x.CutAtom? then 2 else 1;
    var name := if x.Atom? || x.SmallAtom? then x.name else [];
    var n := if x.Atom? || x.SmallAtom? then |name| else x.announced;
    var t := Length(w, n) + (name + rest);
    Headed(lib, tag, w, n, name, rest);
    assert Wire(x) == [tag] + Length(w, n) + name;
    Dispatch(lib, tag, t);
    AtomBody(t, w, n, name, rest);
  }

  lemma ReadsBinary(lib: FloatLib, x: Term, rest: seq<byte>)
    requires (x.Binary? || x.CutBinary?) && Fits(x, |rest|)
    ensures Parse(lib, Wire(x) + rest) == Outcome(Meaning(lib, x), |Wire(x)|)
  {
    hide Parse, FromBigEndian, Length;
    var bytes := if x.Binary? then x.bytes else [];
    var n := if x.Binary? then |bytes| else x.announced;
    var t := Length(4, n) + (bytes + rest);
    Headed(lib, 109, 4, n, bytes, rest);
    assert Wire(x) == [109] + Length(4, n) + bytes;
    Dispatch(lib, 109, t);
    if x.Binary? {
      assert t[4..4 + n] == (bytes + rest)[..n] == bytes;
    }
  }

  lemma ReadsByteString(lib: FloatLib, bytes: seq<byte>, rest: seq<byte>)
    requires |bytes| < 0x1_0000
    ensures Parse(lib, Wire(ByteString(bytes)) + rest) == Outcome(Meaning(lib, ByteString(bytes)), |Wire(ByteString(bytes))|)
  {
    hide Parse, FromBigEndian, Length;
    var n := |bytes|;
    var t := Length(2, n) + (bytes + rest);
    Headed(lib, 107, 2, n, bytes, rest);
    Dispatch(lib, 107, t);
    assert forall i :: 0 <= i < n ==> t[2 + i] == t[2..][i] == bytes[i];
    assert ParseByteList(t).value.items == seq(n, i requires 0 <= i < n => Int(bytes[i]));
  }

  lemma BigTextSame(sign: byte, digits: nat, n: u64)
    requires digits <= 4 ==> n < 0x1_0000_0000
    ensures BigintText(sign, digits, n) == BigText(sign, n)
  {
    hide Decimal, ToInt64;
    if sign != 0 {
      WrapsLong(n);
      var m := ToInt64(n);
      WrapsNegated(m);
    }
  }

  lemma WrapsLong(n: u64)
    ensures ToInt64(n) == if n < 0x8000_0000_0000_0000 then n else n - 0x1_0000_0000_0000_0000
  {
  }

  lemma WrapsNegated(m: int)
    requires -0x8000_0000_0000_0000 <= m < 0x8000_0000_0000_0000
    ensures ToInt64(-m) == if m == -0x8000_0000_0000_0000 then m else -m
  {
  }

  lemma ReadsBig(lib: FloatLib, x: Term, w: nat, sign: byte, magnitude: seq<byte>, rest: seq<byte>)
    requires (x == SmallBig(sign, magnitude) && w == 1) || (x == LargeBig(sign, magnitude) && w == 4)
    requires Fits(x, |rest|)
    ensures Parse(lib, Wire(x) + rest) == Outcome(Meaning(lib, x), |Wire(x)|)
  {
    hide Parse, ParseBigint, FromBigEndian, Length, Magnitude, BigText;
    var n, tag := |magnitude|, if w == 1 then 110 else 111;
    var body := [sign] + magnitude;
    var t := Length(w, n) + (body + rest);
    Headed(lib, tag, w, n, body, rest);
    Dispatch(lib, tag, t);
    BigBody(t, w, sign, magnitude, rest);
  }

  lemma BigBody(t: seq<byte>, w: nat, sign: byte, magnitude: seq<byte>, rest: seq<byte>)
    requires |t| == w + 1 + |magnitude| + |rest| && FromBigEndian(t[..w]) == |magnitude|
    requires t[w..] == [sign] + magnitude + rest
    ensures ParseBigint(t, w)
            == (var v := BigMeaning(sign, magnitude); if v.None? then Fail else Done(v.value, w + 1 + |magnitude|))
  {
    hide FromBigEndian, FromLittleEndian, BigintText, BigText, Magnitude;
    var n := |magnitude|;
    if n <= 8 {
      assert t[w] == t[w..][0] == sign;
      assert t[w + 1..w + 1 + n] == t[w..][1..1 + n] == magnitude;
      MagnitudeFits(magnitude);
      MagnitudeReads(magnitude);
      if n <= 4 {
        Pow256Values();
        Pow256Monotone(n, 4);
        assert FromLittleEndian(magnitude) < Pow256(n);
      }
      BigTextSame(sign, n, FromLittleEndian(magnitude));
    }
  }

  // -------------------------------------------------------------- terms of terms

  lemma {:induction false} ReadsItems(lib: FloatLib, items: seq<Term>, rest: seq<byte>)
    requires FitsItems(items, |rest|)
    ensures var r := MeaningItems(lib, items);
            ParseItems(lib, WireItems(items) + rest, |items|)
            == if r.None? then FailItems else DoneItems(r.value, |WireItems(items)|)
    decreases items, 0
  {
    hide Parse, ParseItems, Wire, Meaning, Fits;
    if items == [] {
      ItemsUnfold(lib, [] + rest, 0);
    } else {
      var head, tail := Wire(items[0]), WireItems(items[1..]);
      ConcatAssoc(head, tail, rest);
      Reads(lib, items[0], tail + rest);
      ItemsUnfold(lib, WireItems(items) + rest, |items|);
      ReadsItems(lib, items[1..], rest);
    }
  }

  lemma {:induction false} ReadsTuple(lib: FloatLib, x: Term, w: nat, items: seq<Term>, rest: seq<byte>)
    requires (x == SmallTuple(items) && w == 1) || (x == LargeTuple(items) && w == 4)
    requires Fits(x, |rest|)
    ensures Parse(lib, Wire(x) + rest) == Outcome(Meaning(lib, x), |Wire(x)|)
    decreases x, 0
  {
    hide Parse, ParseItems, FromBigEndian, Length, MeaningItems, FitsItems, WireItems;
    var n, tag, body := |items|, if w == 1 then 104 else 105, WireItems(items);
    var t := Length(w, n) + (body + rest);
    Headed(lib, tag, w, n, body, rest);
    Dispatch(lib, tag, t);
    ReadsItems(lib, items, rest);
    assert ParseTuple(lib, t, w)
        == var r := ParseItems(lib, body + rest, n); if r.FailItems? then Fail else Done(Arr(r.items), w + r.used);
  }

  lemma {:induction false} ReadsList(lib: FloatLib, items: seq<Term>, tail: byte, rest: seq<byte>)
    requires Fits(List(items, tail), |rest|)
    ensures var x := List(items, tail);
            Parse(lib, Wire(x) + rest) == Outcome(Meaning(lib, x), |Wire(x)|)
    decreases List(items, tail), 0
  {
    hide Parse, ParseItems, FromBigEndian, Length, MeaningItems, FitsItems, WireItems;
    var n, inner := |items|, WireItems(items);
    var body := inner + [tail];
    var t := Length(4, n) + (body + rest);
    Headed(lib, 108, 4, n, body, rest);
    Dispatch(lib, 108, t);
    ConcatAssoc(inner, [tail], rest);
    ReadsItems(lib, items, [tail] + rest);
    var r := ParseItems(lib, body + rest, n);
    if r.DoneItems? {
      assert t[4 + |inner|] == t[4..][|inner|] == tail;
    }
  }

  lemma KeySame(lib: FloatLib, key: Json)
    ensures KeyText(lib, key) == KeyMeaning(lib, key)
  {
    hide Decimal;
  }

  lemma {:induction false} ReadsEntries(lib: FloatLib, entries: seq<Entry>, acc: seq<Field>, rest: seq<byte>)
    requires FitsEntries(entries, |rest|)
    ensures var r := MeaningEntries(lib, entries, acc);
            ParseFields(lib, WireEntries(entries) + rest, |entries|, acc)
            == if r.None? then FailFields else DoneFields(r.value, |WireEntries(entries)|)
    decreases entries, 0
  {
    hide Parse, ParseFields, Wire, Meaning, Fits, KeyMeaning, KeyText, Emplace;
    var s := WireEntries(entries) + rest;
    if entries == [] {
      AnyFieldsUnfold(lib, s, 0, acc);
    } else {
      var tail := WireEntries(entries[1..]);
      ConcatAssoc(WireEntry(entries[0]), tail, rest);
      ReadsEntry(lib, entries[0], tail + rest);
      AnyFieldsUnfold(lib, s, |entries|, acc);
      var f := MeaningEntry(lib, entries[0]);
      if f.Some? {
        ReadsEntries(lib, entries[1..], Emplace(acc, f.value.key, f.value.value), rest);
      }
    }
  }

  /** Key and value of an entry, one after the other. */
  lemma {:induction false} ReadsEntry(lib: FloatLib, e: Entry, rest: seq<byte>)
    requires FitsEntry(e, |rest|)
    ensures var s, f := WireEntry(e) + rest, MeaningEntry(lib, e);
            var k := Parse(lib, s);
            if f.None? then k.Fail? || Parse(lib, s[k.used..]).Fail? || KeyText(lib, k.value).None?
            else
              && k.Done? && k.used == |Wire(e.key)| && KeyText(lib, k.value) == Some(f.value.key)
              && Parse(lib, s[k.used..]) == Done(f.value.value, |Wire(e.value)|)
              && s[|WireEntry(e)|..] == rest
    decreases e, 0
  {
    hide Parse, Wire, Meaning, Fits, KeyMeaning, KeyText;
    var a, b := Wire(e.key), Wire(e.value);
    ConcatAssoc(a, b, rest);
    Reads(lib, e.key, b + rest);
    Reads(lib, e.value, rest);
    assert (a + (b + rest))[|a|..] == b + rest;
    if Meaning(lib, e.key).Some? {
      KeySame(lib, Meaning(lib, e.key).value);
    }
  }

  lemma AnyFieldsUnfold(lib: FloatLib, s: seq<byte>, n: nat, acc: seq<Field>)
    ensures n == 0 ==> ParseFields(lib, s, n, acc) == DoneFields(acc, 0)
    ensures n > 0 && Parse(lib, s).Fail? ==> ParseFields(lib, s, n, acc) == FailFields
    ensures n > 0 && Parse(lib, s).Done? ==>
              var k := Parse(lib, s);
              var v := Parse(lib, s[k.used..]);
              ParseFields(lib, s, n, acc) ==
              if v.Fail? || KeyText(lib, k.value).None? then FailFields
              else
                var t := ParseFields(lib, s[k.used + v.used..], n - 1, Emplace(acc, KeyText(lib, k.value).value, v.value));
                if t.FailFields? then FailFields else DoneFields(t.fields, k.used + v.used + t.used)
  {
    hide Parse, KeyText, Emplace;
  }

  lemma {:induction false} ReadsMap(lib: FloatLib, entries: seq<Entry>, rest: seq<byte>)
    requires Fits(Map(entries), |rest|)
    ensures var x := Map(entries);
            Parse(lib, Wire(x) + rest) == Outcome(Meaning(lib, x), |Wire(x)|)
    decreases Map(entries), 0
  {
    hide Parse, ParseFields, FromBigEndian, Length, MeaningEntries, FitsEntries, WireEntries;
    var n, body := |entries|, WireEntries(entries);
    var t := Length(4, n) + (body + rest);
    Headed(lib, 116, 4, n, body, rest);
    Dispatch(lib, 116, t);
    ReadsEntries(lib, entries, [], rest);
  }

  // ------------------------------------------------------------- labelled terms

  lemma LabelNames()
    ensures K_CREATION == Ascii("creation") && K_ID == Ascii("id") && K_NODE == Ascii("node")
    ensures K_SERIAL == Ascii("serial") && K_ARITY == Ascii("arity") && K_FUN == Ascii("fun") && K_MOD == Ascii("mod")
  {
  }

  lemma {:induction false} ReadsReference(lib: FloatLib, node: Term, id: word, creation: byte, rest: seq<byte>)
    requires Fits(node, 5 + |rest|)
    ensures var x := Reference(node, id, creation);
            Parse(lib, Wire(x) + rest) == Outcome(Meaning(lib, x), |Wire(x)|)
    decreases Reference(node, id, creation), 0
  {
    hide Parse, FromBigEndian, U32, Ascii, Fits;
    var t, u := NodeFollows(lib, 101, node, U32(id) + [creation], rest);
    Dispatch(lib, 101, t);
    LabelNames();
    U32Reads(id);
    WrapsWord(id);
    if Meaning(lib, node).Some? {
      assert u[..4] == U32(id) && u[4] == creation;
      assert Labelled(creation, Arr([Int(Signed(id))]), Meaning(lib, node).value, [])
          == Obj([Field(K_CREATION, Int(creation)), Field(K_ID, Arr([Int(Signed(id))])), Field(K_NODE, Meaning(lib, node).value)]);
    }
  }

  /** A tag, a node and what follows it: the bytes after the tag, and after the node. */
  lemma {:induction false} NodeFollows(lib: FloatLib, tag: byte, node: Term, tail: seq<byte>, rest: seq<byte>)
      returns (t: seq<byte>, u: seq<byte>)
    requires Fits(node, |tail| + |rest|)
    ensures [tag] + (Wire(node) + tail) + rest == [tag] + t && u == tail + rest
    ensures Parse(lib, t) == Outcome(Meaning(lib, node), |Wire(node)|)
    ensures |t| == |Wire(node)| + |u| && t[|Wire(node)|..] == u
    decreases node, 2
  {
    hide Parse, Wire, Meaning, Fits;
    u := tail + rest;
    t := Wire(node) + u;
    ConcatAssoc([tag], Wire(node) + tail, rest);
    ConcatAssoc(Wire(node), tail, rest);
    Reads(lib, node, u);
  }

  lemma {:induction false} ReadsPort(lib: FloatLib, node: Term, id: word, creation: byte, rest: seq<byte>)
    requires Fits(node, 5 + |rest|)
    ensures var x := Port(node, id, creation);
            Parse(lib, Wire(x) + rest) == Outcome(Meaning(lib, x), |Wire(x)|)
    decreases Port(node, id, creation), 0
  {
    hide Parse, FromBigEndian, U32, Ascii, Fits;
    var t, u := NodeFollows(lib, 102, node, U32(id) + [creation], rest);
    Dispatch(lib, 102, t);
    LabelNames();
    U32Reads(id);
    if Meaning(lib, node).Some? {
      assert u[..4] == U32(id) && u[4] == creation;
      assert Labelled(creation, Int(id), Meaning(lib, node).value, [])
          == Obj([Field(K_CREATION, Int(creation)), Field(K_ID, Int(id)), Field(K_NODE, Meaning(lib, node).value)]);
    }
  }

  lemma {:induction false} ReadsPid(lib: FloatLib, node: Term, id: word, serial: word, creation: byte, rest: seq<byte>)
    requires Fits(node, 9 + |rest|)
    ensures var x := Pid(node, id, serial, creation);
            Parse(lib, Wire(x) + rest) == Outcome(Meaning(lib, x), |Wire(x)|)
    decreases Pid(node, id, serial, creation), 0
  {
    hide Parse, FromBigEndian, U32, Ascii, Fits;
    var t, u := NodeFollows(lib, 103, node, U32(id) + U32(serial) + [creation], rest);
    Dispatch(lib, 103, t);
    LabelNames();
    U32Reads(id);
    U32Reads(serial);
    if Meaning(lib, node).Some? {
      assert u[..4] == U32(id) && u[4..8] == U32(serial) && u[8] == creation;
      assert Labelled(creation, Int(id), Meaning(lib, node).value, [Field(Ascii("serial"), Int(serial))])
          == Obj([Field(K_CREATION, Int(creation)), Field(K_ID, Int(id)), Field(K_NODE, Meaning(lib, node).value),
                  Field(K_SERIAL, Int(serial))]);
    }
  }

  lemma {:induction false} IdsRead(ids: seq<word>, rest: seq<byte>)
    ensures Ids(Words(ids) + rest, |ids|) == SignedAll(ids)
  {
    hide FromBigEndian, U32;
    if ids != [] {
      var s := Words(ids) + rest;
      ConcatAssoc(U32(ids[0]), Words(ids[1..]), rest);
      assert s[..4] == U32(ids[0]) && s[4..] == Words(ids[1..]) + rest;
      U32Reads(ids[0]);
      WrapsWord(ids[0]);
      IdsRead(ids[1..], rest);
    }
  }

  lemma {:induction false} ReadsNewReference(lib: FloatLib, node: Term, creation: byte, ids: seq<word>, rest: seq<byte>)
    requires |ids| < 0x1_0000 && Fits(node, 1 + 4 * |ids| + |rest|)
    ensures var x := NewReference(node, creation, ids);
            Parse(lib, Wire(x) + rest) == Outcome(Meaning(lib, x), |Wire(x)|)
    decreases NewReference(node, creation, ids), 0
  {
    hide Parse, FromBigEndian, Length, Words, SignedAll, Labelled, ParseNewReference, Fits;
    var n, tail := |ids|, [creation] + Words(ids);
    var body := Wire(node) + tail;
    var t := Length(2, n) + (body + rest);
    Headed(lib, 114, 2, n, body, rest);
    Dispatch(lib, 114, t);
    ConcatAssoc(Wire(node), tail, rest);
    Reads(lib, node, tail + rest);
    NewReferenceBody(lib, t, Wire(node), creation, ids, rest);
  }

  lemma NewReferenceBody(lib: FloatLib, t: seq<byte>, node: seq<byte>, creation: byte, ids: seq<word>, rest: seq<byte>)
    requires |t| == 2 + |node| + 1 + 4 * |ids| + |rest| && FromBigEndian(t[..2]) == |ids|
    requires t[2..] == node + ([creation] + Words(ids) + rest)
    requires Parse(lib, t[2..]).Fail? || Parse(lib, t[2..]).used == |node|
    ensures var p := Parse(lib, t[2..]);
            ParseNewReference(lib, t) ==
            if p.Fail? then Fail
            else Done(Labelled(creation, Arr(SignedAll(ids)), p.value, []), 2 + |node| + 1 + 4 * |ids|)
  {
    hide Parse, FromBigEndian, Ascii, Words, SignedAll, Ids;
    var p := Parse(lib, t[2..]);
    if p.Done? {
      var u := t[2 + |node|..];
      DropDrop(t, 2, |node|);
      assert u == [creation] + Words(ids) + rest;
      ConcatAssoc([creation], Words(ids), rest);
      assert u[0] == creation && u[1..] == Words(ids) + rest;
      IdsRead(ids, rest);
      LabelNames();
      assert Labelled(creation, Arr(SignedAll(ids)), p.value, [])
          == Obj([Field(K_CREATION, Int(creation)), Field(K_ID, Arr(SignedAll(ids))), Field(K_NODE, p.value)]);
    }
  }

  lemma {:induction false} ReadsExport(lib: FloatLib, m: Term, f: Term, a: Term, rest: seq<byte>)
    requires Fits(m, |Wire(f)| + |Wire(a)| + |rest|) && Fits(f, |Wire(a)| + |rest|) && Fits(a, |rest|)
    ensures var x := Export(m, f, a);
            Parse(lib, Wire(x) + rest) == Outcome(Meaning(lib, x), |Wire(x)|)
    decreases Export(m, f, a), 0
  {
    hide Parse, ParseItems, Ascii, ParseExport, Fits, Wire, Meaning;
    var w1, w2, w3 := Wire(m), Wire(f), Wire(a);
    var s3 := w3 + rest;
    var s2 := w2 + s3;
    var s1 := w1 + s2;
    Dispatch(lib, 113, s1);
    Reads(lib, m, s2);
    Reads(lib, f, s3);
    Reads(lib, a, rest);
    ThreeItems(lib, w1, w2, w3, rest);
    ExportBody(lib, s1);
    LabelNames();
    ExportBytes(w1, w2, w3, rest);
    ExportShape(lib, m, f, a);
  }

  lemma ExportShape(lib: FloatLib, m: Term, f: Term, a: Term)
    ensures Wire(Export(m, f, a)) == [113] + (Wire(m) + (Wire(f) + Wire(a)))
    ensures var m', f', a' := Meaning(lib, m), Meaning(lib, f), Meaning(lib, a);
            Meaning(lib, Export(m, f, a)) ==
            if m'.None? || f'.None? || a'.None? then None
            else Some(Obj([Field(Ascii("arity"), a'.value), Field(Ascii("fun"), f'.value), Field(Ascii("mod"), m'.value)]))
  {
    hide Ascii;
  }

  lemma ExportBytes(w1: seq<byte>, w2: seq<byte>, w3: seq<byte>, rest: seq<byte>)
    ensures [113] + (w1 + (w2 + w3)) + rest == [113] + (w1 + (w2 + (w3 + rest)))
  {
    ConcatAssoc([113], w1 + (w2 + w3), rest);
    ConcatAssoc(w1, w2 + w3, rest);
    ConcatAssoc(w2, w3, rest);
  }

  lemma ExportBody(lib: FloatLib, t: seq<byte>)
    ensures var parts := ParseItems(lib, t, 3);
            ParseExport(lib, t) ==
            if parts.FailItems? then Fail
            else Done(Obj([Field(K_ARITY, parts.items[2]), Field(K_FUN, parts.items[1]), Field(K_MOD, parts.items[0])]),
                      parts.used)
  {
    hide ParseItems;
  }

  lemma ItemsCons(lib: FloatLib, w: seq<byte>, rest: seq<byte>, n: nat)
    requires Parse(lib, w + rest).Fail? || Parse(lib, w + rest).used == |w|
    ensures var h, t := Parse(lib, w + rest), ParseItems(lib, rest, n);
            ParseItems(lib, w + rest, n + 1) ==
            if h.Fail? || t.FailItems? then FailItems else DoneItems([h.value] + t.items, |w| + t.used)
  {
    hide Parse, ParseItems;
    ItemsUnfold(lib, w + rest, n + 1);
    assert (w + rest)[|w|..] == rest;
  }

  lemma ThreeItems(lib: FloatLib, w1: seq<byte>, w2: seq<byte>, w3: seq<byte>, rest: seq<byte>)
    requires var p := Parse(lib, w1 + (w2 + (w3 + rest))); p.Fail? || p.used == |w1|
    requires var p := Parse(lib, w2 + (w3 + rest)); p.Fail? || p.used == |w2|
    requires var p := Parse(lib, w3 + rest); p.Fail? || p.used == |w3|
    ensures var p1, p2, p3 := Parse(lib, w1 + (w2 + (w3 + rest))), Parse(lib, w2 + (w3 + rest)), Parse(lib, w3 + rest);
            ParseItems(lib, w1 + (w2 + (w3 + rest)), 3) ==
            if p1.Fail? || p2.Fail? || p3.Fail? then FailItems
            else DoneItems([p1.value, p2.value, p3.value], |w1| + |w2| + |w3|)
  {
    hide Parse, ParseItems;
    ItemsCons(lib, w1, w2 + (w3 + rest), 2);
    ItemsCons(lib, w2, w3 + rest, 1);
    ItemsCons(lib, w3, rest, 0);
    ItemsUnfold(lib, rest, 0);
  }
}

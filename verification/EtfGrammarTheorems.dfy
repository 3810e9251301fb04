/** The grammar is all there is: whatever the parser accepts is a term of it, and what the printer
    writes is the term one expects. */
module EtfGrammarTheorems {
  import opened Bytes
  import opened EtfJson
  import opened EtfTerm
  import opened EtfRoundTrip
  import opened EtfGrammar

  // ---------------------------------------------------- nothing else is accepted

  /** Bytes that parse start with a term. */
  lemma {:induction false} Covers(lib: FloatLib, s: seq<byte>) returns (x: Term, rest: seq<byte>)
    requires Parse(lib, s).Done?
    ensures s == Wire(x) + rest && Fits(x, |rest|)
    decreases |s|, 1
  {
    hide Parse, Wire, Fits;
    hide ParseNewFloat, ParseByte, ParseInteger, ParseFloat, ParseAtom, ParseReference, ParsePort, ParsePid;
    hide ParseTuple, ParseByteList, ParseList, ParseBinary, ParseBigint, ParseExport, ParseNewReference, ParseMap;
    if s == [] {
      NothingFails(lib);
      assert false;
    }
    var tag, t := s[0], s[1..];
    assert s == [tag] + t;
    Dispatch(lib, tag, t);
    if tag == 70 || tag == 97 || tag == 98 {
      x, rest := CoversNumber(lib, tag, t);
    } else if tag == 99 {
      x, rest := CoversFloat(t);
    } else if tag == 100 || tag == 115 {
      x, rest := CoversAtom(tag, t);
    } else if tag == 101 || tag == 102 || tag == 103 {
      x, rest := CoversNode(lib, tag, t);
    } else if tag == 104 || tag == 105 {
      x, rest := CoversTuple(lib, tag, t);
    } else if tag == 106 {
      x, rest := CoversNil(t);
    } else if tag == 107 {
      x, rest := CoversByteString(t);
    } else if tag == 108 {
      x, rest := CoversList(lib, t);
    } else if tag == 109 {
      x, rest := CoversBinary(t);
    } else if tag == 110 || tag == 111 {
      x, rest := CoversBig(tag, t);
    } else if tag == 113 {
      x, rest := CoversExport(lib, t);
    } else if tag == 114 {
      x, rest := CoversNewReference(lib, t);
    } else {
      x, rest := CoversMap(lib, t);
    }
  }

  lemma NothingFails(lib: FloatLib)
    ensures Parse(lib, []).Fail?
  {
  }

  lemma CoversNil(t: seq<byte>) returns (x: Term, rest: seq<byte>)
    ensures [106] + t == Wire(x) + rest && Fits(x, |rest|)
  {
    x, rest := Nil, t;
  }

  lemma U64Writes(s: seq<byte>)
    requires |s| == 8
    ensures FromBigEndian(s) < 0x1_0000_0000_0000_0000 && U64(FromBigEndian(s)) == s
  {
    hide FromBigEndian, U32;
    var a, b := s[..4], s[4..];
    assert s == a + b;
    FromTwoWords(a, b);
    U32Writes(a);
    U32Writes(b);
    var hi: nat, lo: nat := FromBigEndian(a), FromBigEndian(b);
    DivModUnique(FromBigEndian(s), 0x1_0000_0000, hi, lo);
  }

  lemma CoversNumber(lib: FloatLib, tag: byte, t: seq<byte>) returns (x: Term, rest: seq<byte>)
    requires (tag == 70 && ParseNewFloat(t).Done?) || (tag == 97 && ParseByte(t).Done?) || (tag == 98 && ParseInteger(t).Done?)
    ensures [tag] + t == Wire(x) + rest && Fits(x, |rest|)
  {
    hide FromBigEndian, U32, U64;
    if tag == 97 {
      x, rest := SmallInteger(t[0]), t[1..];
    } else if tag == 98 {
      U32Writes(t[..4]);
      x, rest := Integer(FromBigEndian(t[..4])), t[4..];
      ConcatAssoc([98], t[..4], rest);
      assert t == t[..4] + rest;
    } else {
      U64Writes(t[..8]);
      x, rest := NewFloat(FromBigEndian(t[..8])), t[8..];
      ConcatAssoc([70], t[..8], rest);
      assert t == t[..8] + rest;
    }
  }

  lemma CoversFloat(t: seq<byte>) returns (x: Term, rest: seq<byte>)
    ensures [99] + t == Wire(x) + rest && Fits(x, |rest|)
  {
    if |t| < 31 {
      x, rest := CutFloat, t;
    } else {
      x, rest := OldFloat(t[..31]), t[31..];
      ConcatAssoc([99], t[..31], rest);
      assert t == t[..31] + rest;
    }
  }

  /** A tag, a length, a body and the rest. */
  lemma HeadedBytes(tag: byte, w: nat, t: seq<byte>, body: seq<byte>, rest: seq<byte>)
    requires (w == 1 || w == 2 || w == 4) && |t| >= w && t[w..] == body + rest
    ensures var n := FromBigEndian(t[..w]);
            && n < (if w == 1 then 0x100 else if w == 2 then 0x1_0000 else 0x1_0000_0000)
            && [tag] + t == [tag] + Length(w, n) + body + rest
  {
    hide FromBigEndian, Length;
    LengthWrites(w, t);
    var n := FromBigEndian(t[..w]);
    ConcatAssoc([tag] + Length(w, n), body, rest);
    ConcatAssoc([tag], Length(w, n), body + rest);
  }

  lemma CoversAtom(tag: byte, t: seq<byte>) returns (x: Term, rest: seq<byte>)
    requires (tag == 100 && ParseAtom(t, 2).Done?) || (tag == 115 && ParseAtom(t, 1).Done?)
    ensures [tag] + t == Wire(x) + rest && Fits(x, |rest|)
  {
    hide FromBigEndian, Length;
    var w := if tag == 100 then 2 else 1;
    var n := FromBigEndian(t[..w]);
    if |t| < w + n {
      rest := t[w..];
      x := if tag == 100 then CutAtom(n) else CutSmallAtom(n);
      assert rest == [] + rest;
      HeadedBytes(tag, w, t, [], rest);
      assert [tag] + Length(w, n) + [] == [tag] + Length(w, n);
    } else {
      var name := t[w..w + n];
      rest := t[w + n..];
      x := if tag == 100 then Atom(name) else SmallAtom(name);
      assert t[w..] == name + rest;
      HeadedBytes(tag, w, t, name, rest);
    }
  }

  lemma CoversBinary(t: seq<byte>) returns (x: Term, rest: seq<byte>)
    requires ParseBinary(t).Done?
    ensures [109] + t == Wire(x) + rest && Fits(x, |rest|)
  {
    hide FromBigEndian, Length;
    var n := FromBigEndian(t[..4]);
    if |t| < 4 + n {
      rest := t[4..];
      x := CutBinary(n);
      assert rest == [] + rest;
      HeadedBytes(109, 4, t, [], rest);
      assert [109] + Length(4, n) + [] == [109] + Length(4, n);
    } else {
      var bytes := t[4..4 + n];
      rest := t[4 + n..];
      x := Binary(bytes);
      assert t[4..] == bytes + rest;
      HeadedBytes(109, 4, t, bytes, rest);
    }
  }

  lemma CoversByteString(t: seq<byte>) returns (x: Term, rest: seq<byte>)
    requires ParseByteList(t).Done?
    ensures [107] + t == Wire(x) + rest && Fits(x, |rest|)
  {
    hide FromBigEndian, Length;
    var n := FromBigEndian(t[..2]);
    var bytes := t[2..2 + n];
    rest := t[2 + n..];
    x := ByteString(bytes);
    assert t[2..] == bytes + rest;
    HeadedBytes(107, 2, t, bytes, rest);
  }

  lemma CoversBig(tag: byte, t: seq<byte>) returns (x: Term, rest: seq<byte>)
    requires (tag == 110 && ParseBigint(t, 1).Done?) || (tag == 111 && ParseBigint(t, 4).Done?)
    ensures [tag] + t == Wire(x) + rest && Fits(x, |rest|)
  {
    hide FromBigEndian, FromLittleEndian, BigintText, Length;
    var w := if tag == 110 then 1 else 4;
    var n := FromBigEndian(t[..w]);
    var magnitude := t[w + 1..w + 1 + n];
    rest := t[w + 1 + n..];
    x := if tag == 110 then SmallBig(t[w], magnitude) else LargeBig(t[w], magnitude);
    assert t[w..] == [t[w]] + magnitude + rest;
    HeadedBytes(tag, w, t, [t[w]] + magnitude, rest);
  }

  lemma {:induction false} CoversItems(lib: FloatLib, s: seq<byte>, n: nat) returns (items: seq<Term>, rest: seq<byte>)
    requires ParseItems(lib, s, n).DoneItems?
    ensures |items| == n && s == WireItems(items) + rest && FitsItems(items, |rest|)
    ensures ParseItems(lib, s, n).used == |WireItems(items)|
    decreases |s|, 2
  {
    hide Parse, ParseItems, Wire, Fits, Meaning;
    ItemsUnfold(lib, s, n);
    if n == 0 {
      items, rest := [], s;
    } else {
      var x, after := Covers(lib, s);
      Reads(lib, x, after);
      assert s[|Wire(x)|..] == after;
      var tail;
      tail, rest := CoversItems(lib, after, n - 1);
      items := [x] + tail;
      assert items[1..] == tail;
      ConcatAssoc(Wire(x), WireItems(tail), rest);
    }
  }

  lemma {:induction false} CoversTuple(lib: FloatLib, tag: byte, t: seq<byte>) returns (x: Term, rest: seq<byte>)
    requires (tag == 104 && ParseTuple(lib, t, 1).Done?) || (tag == 105 && ParseTuple(lib, t, 4).Done?)
    ensures [tag] + t == Wire(x) + rest && Fits(x, |rest|)
    decreases |t|, 3
  {
    hide FromBigEndian, Length, ParseItems, WireItems, FitsItems;
    var w := if tag == 104 then 1 else 4;
    var items;
    items, rest := CoversItems(lib, t[w..], FromBigEndian(t[..w]));
    x := if tag == 104 then SmallTuple(items) else LargeTuple(items);
    HeadedBytes(tag, w, t, WireItems(items), rest);
  }

  lemma {:induction false} CoversList(lib: FloatLib, t: seq<byte>) returns (x: Term, rest: seq<byte>)
    requires ParseList(lib, t).Done?
    ensures [108] + t == Wire(x) + rest && Fits(x, |rest|)
    decreases |t|, 3
  {
    hide FromBigEndian, Length, ParseItems, WireItems, FitsItems;
    var items, after := CoversItems(lib, t[4..], FromBigEndian(t[..4]));
    rest := after[1..];
    x := List(items, after[0]);
    assert after == [after[0]] + rest;
    ConcatAssoc(WireItems(items), [after[0]], rest);
    HeadedBytes(108, 4, t, WireItems(items) + [after[0]], rest);
  }

  lemma {:induction false} CoversEntries(lib: FloatLib, s: seq<byte>, n: nat, acc: seq<Field>)
      returns (entries: seq<Entry>, rest: seq<byte>)
    requires ParseFields(lib, s, n, acc).DoneFields?
    ensures |entries| == n && s == WireEntries(entries) + rest && FitsEntries(entries, |rest|)
    decreases |s|, 2
  {
    hide Parse, ParseFields, Wire, Fits, Meaning, KeyText, Emplace;
    AnyFieldsUnfold(lib, s, n, acc);
    if n == 0 {
      entries, rest := [], s;
    } else {
      var k, after := Covers(lib, s);
      Reads(lib, k, after);
      assert s[|Wire(k)|..] == after;
      var v, after' := Covers(lib, after);
      Reads(lib, v, after');
      DropDrop(s, |Wire(k)|, |Wire(v)|);
      assert after[|Wire(v)|..] == after';
      var key, value := KeyText(lib, Parse(lib, s).value).value, Parse(lib, after).value;
      var tail;
      tail, rest := CoversEntries(lib, after', n - 1, Emplace(acc, key, value));
      entries := [Entry(k, v)] + tail;
      assert entries[1..] == tail;
      ConcatAssoc(Wire(k), Wire(v), WireEntries(tail) + rest);
      ConcatAssoc(WireEntry(entries[0]), WireEntries(tail), rest);
    }
  }

  lemma {:induction false} CoversMap(lib: FloatLib, t: seq<byte>) returns (x: Term, rest: seq<byte>)
    requires ParseMap(lib, t).Done?
    ensures [116] + t == Wire(x) + rest && Fits(x, |rest|)
    decreases |t|, 3
  {
    hide FromBigEndian, Length, ParseFields, WireEntries, FitsEntries;
    var entries;
    entries, rest := CoversEntries(lib, t[4..], FromBigEndian(t[..4]), []);
    x := Map(entries);
    HeadedBytes(116, 4, t, WireEntries(entries), rest);
  }

  /** References, ports and process identifiers. */
  lemma {:induction false} CoversNode(lib: FloatLib, tag: byte, t: seq<byte>) returns (x: Term, rest: seq<byte>)
    requires (tag == 101 && ParseReference(lib, t).Done?) || (tag == 102 && ParsePort(lib, t).Done?)
             || (tag == 103 && ParsePid(lib, t).Done?)
    ensures [tag] + t == Wire(x) + rest && Fits(x, |rest|)
    decreases |t|, 3
  {
    hide Parse, FromBigEndian, U32, Meaning, Fits;
    var node, u := Covers(lib, t);
    Reads(lib, node, u);
    U32Writes(u[..4]);
    var id: word := FromBigEndian(u[..4]);
    if tag == 103 {
      U32Writes(u[4..8]);
      var serial: word := FromBigEndian(u[4..8]);
      rest := u[9..];
      var tail := U32(id) + U32(serial) + [u[8]];
      assert u == tail + rest;
      NodeBytes(tag, node, tail, rest);
      x := Pid(node, id, serial, u[8]);
      FitsNode(x, |rest|);
    } else {
      rest := u[5..];
      var tail := U32(id) + [u[4]];
      assert u == tail + rest;
      NodeBytes(tag, node, tail, rest);
      x := if tag == 101 then Reference(node, id, u[4]) else Port(node, id, u[4]);
      FitsNode(x, |rest|);
    }
  }

  lemma FitsNode(x: Term, after: nat)
    requires x.Reference? || x.Port? || x.Pid?
    ensures Fits(x, after) == Fits(x.node, (if x.Pid? then 9 else 5) + after)
  {
  }

  lemma NodeBytes(tag: byte, node: Term, tail: seq<byte>, rest: seq<byte>)
    ensures [tag] + (Wire(node) + (tail + rest)) == [tag] + (Wire(node) + tail) + rest
  {
    hide Wire;
    ConcatAssoc(Wire(node), tail, rest);
    ConcatAssoc([tag], Wire(node) + tail, rest);
  }

  lemma {:induction false} CoversWords(s: seq<byte>, n: nat) returns (ids: seq<word>)
    requires |s| >= 4 * n
    ensures |ids| == n && s == Words(ids) + s[4 * n..]
  {
    hide U32, FromBigEndian;
    if n == 0 {
      ids := [];
    } else {
      U32Writes(s[..4]);
      var tail := CoversWords(s[4..], n - 1);
      ids := [FromBigEndian(s[..4])] + tail;
      assert ids[1..] == tail;
      DropDrop(s, 4, 4 * (n - 1));
      ConcatAssoc(s[..4], Words(tail), s[4 * n..]);
      assert s == s[..4] + s[4..];
    }
  }

  lemma {:induction false} CoversNewReference(lib: FloatLib, t: seq<byte>) returns (x: Term, rest: seq<byte>)
    requires ParseNewReference(lib, t).Done?
    ensures [114] + t == Wire(x) + rest && Fits(x, |rest|)
    decreases |t|, 3
  {
    hide Parse, FromBigEndian, Length, Meaning, Words;
    var n := FromBigEndian(t[..2]);
    var node, u := Covers(lib, t[2..]);
    Reads(lib, node, u);
    hide Fits, Wire;
    var ids := CoversWords(u[1..], n);
    rest := u[1..][4 * n..];
    var tail := [u[0]] + Words(ids);
    assert u == [u[0]] + u[1..];
    ConcatAssoc([u[0]], Words(ids), rest);
    ConcatAssoc(Wire(node), tail, rest);
    HeadedBytes(114, 2, t, Wire(node) + tail, rest);
    x := NewReference(node, u[0], ids);
    NewReferenceShape(node, u[0], ids, |rest|);
  }

  lemma NewReferenceShape(node: Term, creation: byte, ids: seq<word>, after: nat)
    ensures var x := NewReference(node, creation, ids);
            && Wire(x) == [114] + Length(2, |ids|) + (Wire(node) + ([creation] + Words(ids)))
            && Fits(x, after) == (|ids| < 0x1_0000 && Fits(node, 1 + 4 * |ids| + after))
  {
    hide Length, Words;
  }

  lemma {:induction false} CoversExport(lib: FloatLib, t: seq<byte>) returns (x: Term, rest: seq<byte>)
    requires ParseExport(lib, t).Done?
    ensures [113] + t == Wire(x) + rest && Fits(x, |rest|)
    decreases |t|, 3
  {
    hide Parse, ParseItems, WireItems, FitsItems, Wire, Fits, Meaning;
    var items;
    items, rest := CoversItems(lib, t, 3);
    x := Export(items[0], items[1], items[2]);
    ThreeWires(items, |rest|);
    ConcatAssoc([113], WireItems(items), rest);
    ExportShape(lib, items[0], items[1], items[2]);
  }

  lemma ThreeWires(items: seq<Term>, after: nat)
    requires |items| == 3
    ensures WireItems(items) == Wire(items[0]) + (Wire(items[1]) + Wire(items[2]))
    ensures FitsItems(items, after) ==> Fits(Export(items[0], items[1], items[2]), after)
  {
    hide Wire;
    var b, c := items[1..], items[1..][1..];
    assert b[0] == items[1] && c[0] == items[2] && c[1..] == [];
    assert WireItems(c) == Wire(items[2]) + [] == Wire(items[2]);
    assert WireItems(b) == Wire(items[1]) + WireItems(c);
    if FitsItems(items, after) {
      assert Fits(items[0], |WireItems(b)| + after) && FitsItems(b, after);
      assert Fits(items[1], |WireItems(c)| + after) && FitsItems(c, after);
      assert Fits(items[2], |WireItems([])| + after);
    }
  }

  /** The parser decides the grammar: it gives `v` for `n` bytes of `s` exactly when these are a term
      that means `v` and that allows the rest to follow. */
  lemma ParseExactly(lib: FloatLib, s: seq<byte>, v: Json, n: nat)
    ensures Parse(lib, s) == Done(v, n) <==>
            exists x :: Starts(x, s, n) && Meaning(lib, x) == Some(v)
  {
    hide Parse, Wire, Fits, Meaning;
    if Parse(lib, s) == Done(v, n) {
      var x, rest := Covers(lib, s);
      Reads(lib, x, rest);
      assert s[..n] == Wire(x);
      assert Starts(x, s, n);
    }
    if x :| Starts(x, s, n) && Meaning(lib, x) == Some(v) {
      Reads(lib, x, s[n..]);
      assert s == Wire(x) + s[n..];
    }
  }

  /** The first `n` bytes of `s` are the term `x`. */
  ghost predicate Starts(x: Term, s: seq<byte>, n: nat) {
    n <= |s| && s[..n] == Wire(x) && Fits(x, |s| - n)
  }

  // ------------------------------------------------------------------ the printer

  /** The term that a value without empty arrays is written as. */
  function AsTerm(v: Json): (x: Term)
    decreases v
  {
    match v
    case Null => SmallAtom(Ascii("nil"))
    case Bool(b) => SmallAtom(if b then Ascii("true") else Ascii("false"))
    case Int(n) =>
      var m := if n < 0x8000_0000_0000_0000 then n else n - 0x1_0000_0000_0000_0000;
      if 0 <= m <= 127 then SmallInteger(m)
      else if m >= 0xFFFF_FFFE then SmallBig(0, ToLittleEndian(m))
      else Integer(m % 0x1_0000_0000)
    case Float(bits) => NewFloat(bits)
    case Str(s) => Binary(s)
    case Arr(items) => List(AsTerms(items), 106)
    case Obj(fields) => Map(AsEntries(fields))
  }

  function AsTerms(items: seq<Json>): (r: seq<Term>)
    ensures |r| == |items|
    decreases items
  {
    if items == [] then [] else [AsTerm(items[0])] + AsTerms(items[1..])
  }

  function AsEntries(fields: seq<Field>): (r: seq<Entry>)
    ensures |r| == |fields|
    decreases fields
  {
    if fields == [] then [] else [Entry(Binary(fields[0].key), AsTerm(fields[0].value))] + AsEntries(fields[1..])
  }

  /** The magnitude bytes stand for the number, and there are no more than needed. */
  lemma {:induction false} MagnitudeWrites(n: nat)
    ensures Magnitude(ToLittleEndian(n)) == n
    ensures n > 0 ==> ToLittleEndian(n)[|ToLittleEndian(n)| - 1] != 0
  {
    LittleEndianRoundTrip(n);
    MagnitudeReads(ToLittleEndian(n));
    LastDigit(n);
  }

  lemma {:induction false} LastDigit(n: nat)
    ensures n > 0 ==> ToLittleEndian(n) != [] && ToLittleEndian(n)[|ToLittleEndian(n)| - 1] != 0
  {
    if n >= 256 {
      LastDigit(n / 256);
    } else if n > 0 {
      assert ToLittleEndian(n / 256) == [];
    }
  }

  lemma {:induction false} ToFourBytes(n: nat)
    ensures ToBigEndian(4, n) == U32(n % 0x1_0000_0000)
  {
    hide ToBigEndian, FromBigEndian, U32;
    BigEndianRoundTrip(4, n);
    Pow256Values();
    U32Writes(ToBigEndian(4, n));
  }

  lemma ToEightBytes(n: u64)
    ensures ToBigEndian(8, n) == U64(n)
  {
    hide ToBigEndian, FromBigEndian, U64;
    BigEndianRoundTrip(8, n);
    Pow256Values();
    U64Writes(ToBigEndian(8, n));
  }

  /** What the printer writes, byte for byte, for values without empty arrays. */
  lemma {:induction false} PrintIsWire(v: Json)
    requires NoEmptyArrays(v)
    ensures Print(v) == Wire(AsTerm(v))
    decreases v
  {
    hide ToBigEndian, U32, U64, Ascii;
    match v
    case Null => AtomNames();
    case Bool(b) => AtomNames();
    case Int(n) => PrintsInt(n);
    case Float(bits) => ToEightBytes(bits);
    case Str(s) => ToFourBytes(|s|);
    case Arr(items) =>
      ToFourBytes(|items|);
      PrintsItems(items);
      ArrBytes(ToBigEndian(4, |items|), PrintItems(items));
    case Obj(fields) =>
      ToFourBytes(|fields|);
      PrintsFields(fields);
  }

  lemma ArrBytes(length: seq<byte>, items: seq<byte>)
    ensures [] + [LIST] + length + items + [NIL] == [108] + length + (items + [106])
  {
    ConcatAssoc([108] + length, items, [106]);
    assert [] + [LIST] == [108];
  }

  lemma PrintsInt(n: JsonInt)
    ensures Print(Int(n)) == Wire(AsTerm(Int(n)))
  {
    hide ToBigEndian, U32, ToLittleEndian;
    var m := ToInt64(n);
    assert m == if n < 0x8000_0000_0000_0000 then n else n - 0x1_0000_0000_0000_0000;
    ToFourBytes(m % 0x1_0000_0000);
    if m >= 0xFFFF_FFFE {
      var d := ToLittleEndian(m);
      Pow256Values();
      LittleEndianLength(m, 8);
      assert [BIGINT_SMALL, |d|, 0] + d == [110] + [|d|] + ([0] + d);
    }
  }

  lemma {:induction false} PrintsItems(items: seq<Json>)
    requires forall i :: 0 <= i < |items| ==> NoEmptyArrays(items[i])
    ensures PrintItems(items) == WireItems(AsTerms(items))
    decreases items
  {
    hide Print, Wire, AsTerm, NoEmptyArrays;
    if items != [] {
      PrintIsWire(items[0]);
      PrintsItems(items[1..]);
      assert AsTerms(items)[1..] == AsTerms(items[1..]);
    }
  }

  lemma {:induction false} PrintsFields(fields: seq<Field>)
    requires forall i :: 0 <= i < |fields| ==> NoEmptyArrays(fields[i].value)
    ensures PrintFields(fields) == WireEntries(AsEntries(fields))
    decreases fields
  {
    hide Print, AsTerm, NoEmptyArrays, ToBigEndian, U32;
    if fields != [] {
      PrintIsWire(fields[0].value);
      PrintsFields(fields[1..]);
      assert AsEntries(fields)[1..] == AsEntries(fields[1..]);
      ToFourBytes(|fields[0].key|);
      assert WireEntry(AsEntries(fields)[0]) == PrintStr(fields[0].key) + Print(fields[0].value);
      ConcatAssoc(PrintStr(fields[0].key), Print(fields[0].value), PrintFields(fields[1..]));
    }
  }

  /** An empty array is written as two terms. */
  lemma EmptyArrayIsTwoTerms()
    ensures Print(Arr([])) == Wire(Nil) + Wire(List([], 106)) == [106, 108, 0, 0, 0, 0, 106]
  {
    PrintEmptyArray();
  }

  /** The number of entries in the longest list or map of a value. */
  function Longest(v: Json): (n: nat)
    decreases v
  {
    match v
    case Arr(items) => LongestItem(items, |items|)
    case Obj(fields) => LongestField(fields, |fields|)
    case _ => 0
  }

  function LongestItem(items: seq<Json>, n: nat): (r: nat)
    decreases items
  {
    if items == [] then n
    else var m := LongestItem(items[1..], n); if Longest(items[0]) > m then Longest(items[0]) else m
  }

  function LongestField(fields: seq<Field>, n: nat): (r: nat)
    decreases fields
  {
    if fields == [] then n
    else var m := LongestField(fields[1..], n); if Longest(fields[0].value) > m then Longest(fields[0].value) else m
  }

  /** The printer gives up exactly on a list or map of more than 2^32 - 2 entries. */
  lemma {:induction false} BuildRefuses(v: Json)
    ensures Build(v).None? <==> Longest(v) > 4_294_967_294
    decreases v
  {
    match v
    case Arr(items) => RefusesItem(items, |items|);
    case Obj(fields) => RefusesField(fields, |fields|);
    case _ =>
  }

  lemma {:induction false} RefusesItem(items: seq<Json>, n: nat)
    ensures LongestItem(items, n) <= 4_294_967_294
            <==> n <= 4_294_967_294 && forall i :: 0 <= i < |items| ==> ContainersFit(items[i])
    decreases items
  {
    if items != [] {
      BuildRefuses(items[0]);
      RefusesItem(items[1..], n);
      assert forall i :: 0 < i < |items| ==> items[i] == items[1..][i - 1];
      assert forall i :: 0 <= i < |items[1..]| ==> items[1..][i] == items[i + 1];
    }
  }

  lemma {:induction false} RefusesField(fields: seq<Field>, n: nat)
    ensures LongestField(fields, n) <= 4_294_967_294
            <==> n <= 4_294_967_294 && forall i :: 0 <= i < |fields| ==> ContainersFit(fields[i].value)
    decreases fields
  {
    if fields != [] {
      BuildRefuses(fields[0].value);
      RefusesField(fields[1..], n);
      assert forall i :: 0 < i < |fields| ==> fields[i] == fields[1..][i - 1];
      assert forall i :: 0 <= i < |fields[1..]| ==> fields[1..][i] == fields[i + 1];
    }
  }

  /** A whole message. */
  lemma MessageBytes(lib: FloatLib, v: Json, s: seq<byte>)
    ensures Build(v).Some? ==> Build(v).value == [131] + Print(v)
    ensures ParseMessage(lib, s).Some? <==> s != [] && s[0] == 131 && Parse(lib, s[1..]).Done?
    ensures ParseMessage(lib, s).Some? ==> ParseMessage(lib, s).value == Parse(lib, s[1..]).value
  {
    hide Parse, Print;
  }
}

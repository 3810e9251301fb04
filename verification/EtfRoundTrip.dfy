/** What comes back when a value is built and parsed again.

    An empty array is printed as two terms, nil and an empty list, and the parser takes the first
    one for the array. The second one, and the nil that closes an enclosing list, stay in front of
    the reader. `Residue` follows those left-over terms through a value; it decides exactly which
    values survive. */
module EtfRoundTrip {
  import opened Bytes
  import opened EtfJson
  import opened EtfTerm

  // ------------------------------------------------------------ side conditions

  predicate NoEmptyArrays(v: Json)
    decreases v
  {
    match v
    case Arr(items) => items != [] && forall i :: 0 <= i < |items| ==> NoEmptyArrays(items[i])
    case Obj(fields) => forall i :: 0 <= i < |fields| ==> NoEmptyArrays(fields[i].value)
    case _ => true
  }

  /** Every string and key is shorter than its 32-bit length field can say. */
  predicate StringsFit(v: Json)
    decreases v
  {
    match v
    case Str(s) => |s| < TWO_32
    case Arr(items) => forall i :: 0 <= i < |items| ==> StringsFit(items[i])
    case Obj(fields) => forall i :: 0 <= i < |fields| ==> |fields[i].key| < TWO_32 && StringsFit(fields[i].value)
    case _ => true
  }

  /** Every object lists its fields in key order, as `std::map` does. */
  ghost predicate Canonical(v: Json)
    decreases v
  {
    match v
    case Arr(items) => forall i :: 0 <= i < |items| ==> Canonical(items[i])
    case Obj(fields) => KeysSorted(fields) && forall i :: 0 <= i < |fields| ==> Canonical(fields[i].value)
    case _ => true
  }

  // ------------------------------------------------------------------- residue

  /** A term left in front of the reader: a nil byte, or an empty list. Both read as `[]`. */
  datatype Token = NilToken | ListToken

  function TokenBytes(t: Token): (s: seq<byte>)
    ensures |s| >= 1
  {
    match t
    case NilToken => [NIL]
    case ListToken => [LIST, 0, 0, 0, 0, NIL]
  }

  function TokensBytes(ts: seq<Token>): (s: seq<byte>) {
    if ts == [] then [] else TokenBytes(ts[0]) + TokensBytes(ts[1..])
  }

  /** The terms left over after `v` is parsed from its own print, or `None` when the parser does
      not get `v` back. */
  function Residue(v: Json): (r: Option<seq<Token>>)
    decreases v
  {
    match v
    case Arr(items) =>
      if items == [] then Some([ListToken])
      else
        var r := ItemsResidue(items, []);
        if r.None? then None
        else if (r.value + [NilToken])[0] == NilToken then Some((r.value + [NilToken])[1..])
        else None
    case Obj(fields) => FieldsResidue(fields)
    case _ => Some([])
  }

  /** While terms are left over, each one is taken for the next item, which had better be `[]`. */
  function ItemsResidue(items: seq<Json>, pending: seq<Token>): (r: Option<seq<Token>>)
    decreases items
  {
    if items == [] then Some(pending)
    else if pending == [] then
      var r := Residue(items[0]);
      if r.None? then None else ItemsResidue(items[1..], r.value)
    else if items[0] == Arr([]) then ItemsResidue(items[1..], pending[1..] + [NilToken, ListToken])
    else None
  }

  /** A left-over term in key position throws. */
  function FieldsResidue(fields: seq<Field>): (r: Option<seq<Token>>)
    decreases fields
  {
    if fields == [] then Some([])
    else
      var r := Residue(fields[0].value);
      if r.None? || |fields| == 1 then r
      else if r.value == [] then FieldsResidue(fields[1..])
      else None
  }

  /** Nothing is left over exactly when there is no empty array. */
  lemma {:induction false} NoResidue(v: Json)
    ensures Residue(v) == Some([]) <==> NoEmptyArrays(v)
    decreases v
  {
    match v
    case Arr(items) =>
      if items != [] {
        NoItemsResidue(items, []);
        var r := ItemsResidue(items, []);
        assert r.Some? ==> |(r.value + [NilToken])[1..]| == |r.value|;
        assert r == Some([]) ==> (r.value + [NilToken])[0] == NilToken;
      }
    case Obj(fields) => NoFieldsResidue(fields);
    case _ =>
  }

  lemma {:induction false} NoItemsResidue(items: seq<Json>, pending: seq<Token>)
    ensures ItemsResidue(items, pending) == Some([]) <==>
            pending == [] && forall i :: 0 <= i < |items| ==> NoEmptyArrays(items[i])
    decreases items
  {
    if items != [] {
      if pending == [] {
        NoResidue(items[0]);
        if Residue(items[0]).Some? {
          NoItemsResidue(items[1..], Residue(items[0]).value);
        }
      } else {
        NoItemsResidue(items[1..], pending[1..] + [NilToken, ListToken]);
      }
      assert forall i :: 0 < i < |items| ==> items[i] == items[1..][i - 1];
      assert (forall i :: 0 <= i < |items[1..]| ==> NoEmptyArrays(items[1..][i])) <==>
             (forall i :: 1 <= i < |items| ==> NoEmptyArrays(items[i])) by {
        assert forall i :: 0 <= i < |items[1..]| ==> items[1..][i] == items[i + 1];
      }
    }
  }

  lemma {:induction false} NoFieldsResidue(fields: seq<Field>)
    ensures FieldsResidue(fields) == Some([]) <==>
            forall i :: 0 <= i < |fields| ==> NoEmptyArrays(fields[i].value)
    decreases fields
  {
    if fields != [] {
      NoResidue(fields[0].value);
      NoFieldsResidue(fields[1..]);
      assert forall i :: 0 < i < |fields| ==> fields[i] == fields[1..][i - 1];
      assert forall i :: 0 <= i < |fields[1..]| ==> fields[1..][i] == fields[i + 1];
    }
  }

  // ------------------------------------------------------------- reading tokens

  lemma TokenReadsAsEmptyArray(lib: FloatLib, t: Token, rest: seq<byte>)
    ensures Parse(lib, TokenBytes(t) + rest) == Done(Arr([]), |TokenBytes(t)|)
  {
    var s := TokenBytes(t) + rest;
    if t == ListToken {
      var u := s[1..];
      assert u == [0, 0, 0, 0, NIL] + rest;
      assert u[..4] == [0, 0, 0, 0];
      assert FromBigEndian([0, 0, 0, 0]) == 0 by {
        assert ToBigEndian(4, 0) == [0, 0, 0, 0];
        BigEndianRoundTrip(4, 0);
      }
      assert ParseItems(lib, u[4..], 0) == DoneItems([], 0);
      assert ParseList(lib, u) == Done(Arr([]), 5);
    }
  }

  lemma {:induction false} TokensConcat(a: seq<Token>, b: seq<Token>)
    ensures TokensBytes(a + b) == TokensBytes(a) + TokensBytes(b)
  {
    if a == [] {
      assert a + b == b;
    } else {
      assert (a + b)[1..] == a[1..] + b;
      TokensConcat(a[1..], b);
    }
  }

  // ---------------------------------------------------------------- scalar terms

  lemma ScalarRoundTrip(lib: FloatLib, v: Json, rest: seq<byte>)
    requires !v.Arr? && !v.Obj? && StringsFit(v)
    ensures Parse(lib, Print(v) + rest) == Done(Normalise(v), |Print(v)|)
  {
    hide Parse, ToInt64, PrintInt, PrintStr, ToBigEndian, FromBigEndian;
    match v
    case Null => AtomTerm(lib, A_NIL, rest);
    case Bool(b) => AtomTerm(lib, if b then A_TRUE else A_FALSE, rest);
    case Int(n) => IntRoundTrip(lib, ToInt64(n), rest);
    case Float(bits) => FloatTerm(lib, bits, rest);
    case Str(t) => StrRoundTrip(lib, t, rest);
  }

  lemma AtomTerm(lib: FloatLib, a: seq<byte>, rest: seq<byte>)
    requires |a| < 256
    ensures Parse(lib, [ATOM_SMALL, |a|] + a + rest) == Done(AtomValue(a), 2 + |a|)
  {
    hide AtomValue, FromBigEndian;
    var s := [ATOM_SMALL, |a|] + a + rest;
    var t := s[1..];
    assert t == [|a|] + (a + rest);
    OneByte(t);
    assert t[1..1 + |a|] == a;
    assert ParseAtom(t, 1) == Done(AtomValue(a), 1 + |a|);
  }

  lemma FloatTerm(lib: FloatLib, bits: u64, rest: seq<byte>)
    ensures Parse(lib, [NEW_FLOAT] + ToBigEndian(8, bits) + rest) == Done(Float(bits), 9)
  {
    hide ToBigEndian, FromBigEndian;
    var s := [NEW_FLOAT] + ToBigEndian(8, bits) + rest;
    Pow256Values();
    BigEndianField(8, bits, rest);
    assert s[1..] == ToBigEndian(8, bits) + rest;
    assert ParseNewFloat(s[1..]) == Done(Float(bits), 8);
  }

  lemma OneByte(t: seq<byte>)
    requires |t| >= 1
    ensures FromBigEndian(t[..1]) == t[0]
  {
    assert t[..1][..0] == [];
  }

  lemma StrRoundTrip(lib: FloatLib, t: seq<byte>, rest: seq<byte>)
    requires |t| < TWO_32
    ensures Parse(lib, PrintStr(t) + rest) == Done(Str(t), |PrintStr(t)|)
  {
    var s := PrintStr(t) + rest;
    assert s[1..] == ToBigEndian(4, |t|) + (t + rest);
    Pow256Values();
    BigEndianField(4, |t|, t + rest);
    assert s[1..][4..4 + |t|] == t;
  }

  lemma IntRoundTrip(lib: FloatLib, m: int, rest: seq<byte>)
    requires -0x8000_0000_0000_0000 <= m < TWO_63
    ensures Parse(lib, PrintInt(m) + rest)
            == Done(if m >= TWO_32 - 2 then Str(Decimal(m)) else Int(ToInt32(m)), |PrintInt(m)|)
  {
    hide Parse, ToBigEndian, FromBigEndian, ToInt32, PrintBigint, Decimal;
    if 0 <= m <= 127 {
      SmallIntTerm(lib, m, rest);
    } else if m >= TWO_32 - 2 {
      BigintRoundTrip(lib, 0, m, rest);
    } else {
      Pow256Values();
      var field := ToBigEndian(4, m % TWO_32);
      BigEndianField(4, m % TWO_32, rest);
      assert (PrintInt(m) + rest)[1..] == field + rest;
      IntegerTerm(lib, PrintInt(m) + rest);
      LowWordWraps(m);
    }
  }

  lemma LowWordWraps(m: int)
    ensures ToInt32(m % TWO_32) == ToInt32(m)
  {
  }

  lemma SmallIntTerm(lib: FloatLib, m: byte, rest: seq<byte>)
    requires m <= 127
    ensures Parse(lib, [SMALL_INT, m] + rest) == Done(Int(ToInt32(m)), 2)
  {
    var s := [SMALL_INT, m] + rest;
    assert s[1..][0] == m;
  }

  lemma IntegerTerm(lib: FloatLib, s: seq<byte>)
    requires |s| >= 5 && s[0] == INTEGER
    ensures Parse(lib, s) == Done(Int(ToInt32(FromBigEndian(s[1..][..4]))), 5)
  {
  }

  lemma BigintRoundTrip(lib: FloatLib, sign: byte, m: u64, rest: seq<byte>)
    ensures Parse(lib, PrintBigint(sign, m) + rest)
            == Done(Str(BigintText(sign, |ToLittleEndian(m)|, m)), |PrintBigint(sign, m)|)
  {
    hide Parse, ToLittleEndian, FromLittleEndian, BigintText;
    var d := ToLittleEndian(m);
    LittleEndianRoundTrip(m);
    var s := PrintBigint(sign, m) + rest;
    assert s == [BIGINT_SMALL, |d|, sign] + (d + rest);
    assert s[3..3 + |d|] == d;
    BigintTerm(lib, s, |d|);
  }

  /** Every 64-bit integer written with its sign comes back as its decimal text. */
  lemma LongLongRoundTrip(lib: FloatLib, d: int, rest: seq<byte>)
    requires -0x8000_0000_0000_0000 <= d < TWO_63
    ensures Parse(lib, PrintLongLong(d) + rest) == Done(Str(Decimal(d)), |PrintLongLong(d)|)
  {
    hide Parse, ToLittleEndian, Decimal, PrintBigint;
    var m: u64 := if d < 0 then -d else d;
    BigintRoundTrip(lib, if d < 0 then 1 else 0, m, rest);
    SignedText(d, m);
  }

  lemma SignedText(d: int, m: u64)
    requires -0x8000_0000_0000_0000 <= d < TWO_63 && m == if d < 0 then -d else d
    ensures BigintText(if d < 0 then 1 else 0, |ToLittleEndian(m)|, m) == Decimal(d)
  {
    hide ToLittleEndian, Decimal;
    if d < 0 {
      assert ToInt64(m) == if m < TWO_63 then m else -0x8000_0000_0000_0000;
      assert ToInt64(-ToInt64(m)) == d;
    }
  }

  lemma BigintTerm(lib: FloatLib, s: seq<byte>, n: nat)
    requires |s| >= 3 + n && s[0] == BIGINT_SMALL && s[1] == n <= 8
    ensures FromLittleEndian(s[3..3 + n]) < TWO_64
    ensures Parse(lib, s) == Done(Str(BigintText(s[2], n, FromLittleEndian(s[3..3 + n]))), 3 + n)
  {
    hide FromLittleEndian, BigintText;
    MagnitudeFits(s[3..3 + n]);
    OneByte(s[1..]);
    assert s[1..][2..2 + n] == s[3..3 + n];
    var text := Str(BigintText(s[2], n, FromLittleEndian(s[3..3 + n])));
    assert ParseBigint(s[1..], 1) == Done(text, 2 + n);
  }

  // ------------------------------------------------- one step of the parser at a time

  lemma ItemsUnfold(lib: FloatLib, s: seq<byte>, n: nat)
    ensures n == 0 ==> ParseItems(lib, s, n) == DoneItems([], 0)
    ensures n > 0 && Parse(lib, s).Fail? ==> ParseItems(lib, s, n) == FailItems
    ensures n > 0 && Parse(lib, s).Done? ==>
              var h := Parse(lib, s);
              var t := ParseItems(lib, s[h.used..], n - 1);
              ParseItems(lib, s, n)
              == if t.FailItems? then FailItems else DoneItems([h.value] + t.items, h.used + t.used)
  {
  }

  lemma FieldsUnfold(lib: FloatLib, s: seq<byte>, n: nat, acc: seq<Field>, key: seq<byte>, used: nat)
    requires n > 0 && Parse(lib, s) == Done(Str(key), used)
    ensures var v := Parse(lib, s[used..]);
            ParseFields(lib, s, n, acc) ==
            if v.Fail? then FailFields
            else
              var t := ParseFields(lib, s[used + v.used..], n - 1, Emplace(acc, key, v.value));
              if t.FailFields? then FailFields else DoneFields(t.fields, used + v.used + t.used)
  {
    hide Parse;
  }

  lemma ListUnfold(lib: FloatLib, s: seq<byte>, n: nat)
    requires |s| >= 5 && s[0] == LIST && FromBigEndian(s[1..][..4]) == n
    ensures var items := ParseItems(lib, s[5..], n);
            Parse(lib, s) ==
            if items.FailItems? || |s| <= 5 + items.used then Fail
            else Done(if s[5 + items.used] == NIL then Arr(items.items) else Null, 6 + items.used)
  {
    assert s[1..][4..] == s[5..];
    assert Parse(lib, s) == var r := ParseList(lib, s[1..]); if r.Fail? then Fail else Done(r.value, 1 + r.used);
  }

  // ------------------------------------------------------------- the main lemmas

  /** `r` is the value `want` read from a print of `whole` bytes that leaves the terms `left`. */
  ghost predicate Leaves(r: Parsed, want: Json, whole: seq<byte>, left: seq<Token>) {
    && EndsWith(whole, left)
    && r == Done(want, |whole| - |TokensBytes(left)|)
  }

  ghost predicate EndsWith(whole: seq<byte>, left: seq<Token>) {
    && |TokensBytes(left)| <= |whole|
    && whole[|whole| - |TokensBytes(left)|..] == TokensBytes(left)
  }

  /** Parsing the print of `v`, whatever follows: it leaves the residue of `v`, or it does not give
      the normal form of `v`. */
  lemma {:induction false} TermLeaves(lib: FloatLib, v: Json, rest: seq<byte>)
    requires ContainersFit(v) && StringsFit(v) && Canonical(v)
    ensures Residue(v).Some? ==> Leaves(Parse(lib, Print(v) + rest), Normalise(v), Print(v), Residue(v).value)
    ensures Residue(v).None? ==> (var r := Parse(lib, Print(v) + rest); r.Fail? || r.value != Normalise(v))
    decreases v
  {
    match v
    case Arr(items) =>
      if items == [] {
        EmptyArrayLeaves(lib, rest);
      } else {
        ItemsLeave(lib, items, [], [NIL] + rest);
        ListLeaves(lib, items, rest);
      }
    case Obj(fields) =>
      FieldsLeave(lib, fields, [], rest);
      MapLeaves(lib, fields, rest);
    case _ =>
      ScalarRoundTrip(lib, v, rest);
      assert Residue(v) == Some([]);
  }

  lemma PrintEmptyArray()
    ensures Print(Arr([])) == TokenBytes(NilToken) + TokenBytes(ListToken)
  {
    assert ToBigEndian(4, 0) == [0, 0, 0, 0];
  }

  lemma EmptyArrayLeaves(lib: FloatLib, rest: seq<byte>)
    ensures Leaves(Parse(lib, Print(Arr([])) + rest), Arr([]), Print(Arr([])), [ListToken])
  {
    hide Parse, Print, TokenBytes;
    PrintEmptyArray();
    ConcatAssoc(TokenBytes(NilToken), TokenBytes(ListToken), rest);
    TokenReadsAsEmptyArray(lib, NilToken, TokenBytes(ListToken) + rest);
    assert TokensBytes([ListToken]) == TokenBytes(ListToken) + TokensBytes([]);
  }

  /** Items read while the terms `pending` are in front of the reader. */
  ghost predicate ItemsOutcome(r: ParsedItems, want: seq<Json>, whole: seq<byte>, left: Option<seq<Token>>) {
    match left
    case Some(t) => EndsWith(whole, t) && r == DoneItems(want, |whole| - |TokensBytes(t)|)
    case None => r.FailItems? || r.items != want
  }

  lemma {:induction false} ItemsLeave(lib: FloatLib, items: seq<Json>, pending: seq<Token>, rest: seq<byte>)
    requires forall i :: 0 <= i < |items| ==>
               ContainersFit(items[i]) && StringsFit(items[i]) && Canonical(items[i])
    ensures ItemsOutcome(ParseItems(lib, TokensBytes(pending) + PrintItems(items) + rest, |items|),
                         NormaliseItems(items), TokensBytes(pending) + PrintItems(items),
                         ItemsResidue(items, pending))
    decreases items, 1
  {
    hide Parse, ParseItems, Print, PrintItems, TokensBytes, Normalise, Residue;
    hide ContainersFit, StringsFit, Canonical;
    var whole := TokensBytes(pending) + PrintItems(items);
    ItemsUnfold(lib, whole + rest, |items|);
    if items == [] {
      PrintNothing();
      assert whole == TokensBytes(pending);
    } else {
      var head := items[0];
      assert NormaliseItems(items)[0] == Normalise(head);
      if pending == [] {
        AlignedItem(lib, items, rest);
        if Residue(head).Some? {
          var left := Residue(head).value;
          ItemsLeaveAfter(lib, items, whole, left, |Print(head)| - |TokensBytes(left)|, rest);
        }
      } else {
        PendingItem(lib, items, pending, rest);
        NormaliseEmptyArray(head);
        if head == Arr([]) {
          ItemsLeaveAfter(lib, items, whole, pending[1..] + [NilToken, ListToken], |TokenBytes(pending[0])|, rest);
        }
      }
    }
  }

  /** With nothing pending the next item is read from its own print. */
  lemma {:induction false} AlignedItem(lib: FloatLib, items: seq<Json>, rest: seq<byte>)
    requires items != []
    requires ContainersFit(items[0]) && StringsFit(items[0]) && Canonical(items[0])
    ensures var whole := TokensBytes([]) + PrintItems(items);
            var r := Parse(lib, whole + rest);
            if Residue(items[0]).None? then r.Fail? || r.value != Normalise(items[0])
            else
              var left := Residue(items[0]).value;
              && EndsWith(Print(items[0]), left)
              && var used := |Print(items[0])| - |TokensBytes(left)|;
                 && r == Done(Normalise(items[0]), used)
                 && used <= |whole| && whole[used..] == TokensBytes(left) + PrintItems(items[1..])
    decreases items, 0
  {
    hide Parse, Print, PrintItems, Normalise, Residue, TokensBytes, ContainersFit, StringsFit, Canonical;
    var head, tail := Print(items[0]), PrintItems(items[1..]);
    TermLeaves(lib, items[0], tail + rest);
    FirstPrinted(items);
    ConcatAssoc(head, tail, rest);
    if Residue(items[0]).Some? {
      var left := TokensBytes(Residue(items[0]).value);
      var pre := head[..|head| - |left|];
      assert head == pre + left;
      ConcatAssoc(pre, left, tail);
    }
  }

  lemma FirstPrinted(items: seq<Json>)
    requires items != []
    ensures TokensBytes([]) + PrintItems(items) == Print(items[0]) + PrintItems(items[1..])
  {
    hide Print;
  }

  lemma PrintNothing()
    ensures PrintItems([]) == [] && PrintFields([]) == []
  {
  }

  /** A pending term is read in place of the next item. */
  lemma PendingItem(lib: FloatLib, items: seq<Json>, pending: seq<Token>, rest: seq<byte>)
    requires items != [] && pending != []
    ensures var whole := TokensBytes(pending) + PrintItems(items);
            var used := |TokenBytes(pending[0])|;
            && used <= |whole|
            && Parse(lib, whole + rest) == Done(Arr([]), used)
            && (items[0] == Arr([]) ==>
                  whole[used..] == TokensBytes(pending[1..] + [NilToken, ListToken]) + PrintItems(items[1..]))
  {
    hide Parse, Print, TokenBytes;
    var tok, more := TokenBytes(pending[0]), TokensBytes(pending[1..]);
    var printed, tail := PrintItems(items), PrintItems(items[1..]);
    assert TokensBytes(pending) == tok + more;
    ConcatAssoc(tok, more, printed);
    ConcatAssoc(tok, more + printed, rest);
    TokenReadsAsEmptyArray(lib, pending[0], more + printed + rest);
    assert printed == Print(items[0]) + tail;
    EmptyArrayPrint(pending[1..]);
    ConcatAssoc(more, Print(items[0]), tail);
  }

  /** The first item was read right and took `used` bytes; on with the others. */
  lemma {:induction false} ItemsLeaveAfter(lib: FloatLib, items: seq<Json>, whole: seq<byte>, left: seq<Token>,
                                           used: nat, rest: seq<byte>)
    requires items != []
    requires forall i :: 0 <= i < |items| ==>
               ContainersFit(items[i]) && StringsFit(items[i]) && Canonical(items[i])
    requires used <= |whole| && whole[used..] == TokensBytes(left) + PrintItems(items[1..])
    requires Parse(lib, whole + rest) == Done(Normalise(items[0]), used)
    ensures ItemsOutcome(ParseItems(lib, whole + rest, |items|), NormaliseItems(items), whole,
                         ItemsResidue(items[1..], left))
    decreases items, 0
  {
    hide Parse, ParseItems, Print, PrintItems, TokensBytes, Normalise, ItemsResidue, Residue;
    hide ContainersFit, StringsFit, Canonical;
    var shorter := TokensBytes(left) + PrintItems(items[1..]);
    ItemsLeave(lib, items[1..], left, rest);
    assert (whole + rest)[used..] == shorter + rest;
    ItemsUnfold(lib, whole + rest, |items|);
    ItemsStep(whole, shorter, used, ItemsResidue(items[1..], left));
    var t := ParseItems(lib, shorter + rest, |items| - 1);
    if t.DoneItems? {
      assert ([Normalise(items[0])] + t.items)[1..] == t.items;
    }
  }

  /** Only the empty array becomes the empty array. */
  lemma NormaliseEmptyArray(v: Json)
    ensures Normalise(v) == Arr([]) <==> v == Arr([])
  {
    if v.Arr? {
      assert |NormaliseItems(v.items)| == |v.items|;
    }
  }

  lemma EmptyArrayPrint(pending: seq<Token>)
    ensures TokensBytes(pending + [NilToken, ListToken]) == TokensBytes(pending) + Print(Arr([]))
  {
    hide Print, TokenBytes;
    PrintEmptyArray();
    TokensConcat(pending, [NilToken, ListToken]);
    assert [NilToken, ListToken][1..] == [ListToken];
    assert TokensBytes([ListToken]) == TokenBytes(ListToken) + TokensBytes([]);
    assert TokensBytes([NilToken, ListToken]) == TokenBytes(NilToken) + TokensBytes([ListToken]);
  }

  lemma ItemsStep(whole: seq<byte>, shorter: seq<byte>, used: nat, left: Option<seq<Token>>)
    requires used <= |whole| && whole[used..] == shorter
    requires left.Some? ==> EndsWith(shorter, left.value)
    ensures left.Some? ==> EndsWith(whole, left.value)
  {
    if left.Some? {
      var k := |TokensBytes(left.value)|;
      DropDrop(whole, used, |shorter| - k);
    }
  }

  /** From the items of a list to the list: its tail byte is the next term's first byte. */
  lemma ListLeaves(lib: FloatLib, items: seq<Json>, rest: seq<byte>)
    requires items != [] && |items| <= MAX_ENTRIES
    requires ItemsOutcome(ParseItems(lib, TokensBytes([]) + PrintItems(items) + ([NIL] + rest), |items|),
                          NormaliseItems(items), TokensBytes([]) + PrintItems(items), ItemsResidue(items, []))
    ensures var v := Arr(items);
            var r := Parse(lib, Print(v) + rest);
            if Residue(v).Some? then Leaves(r, Normalise(v), Print(v), Residue(v).value)
            else r.Fail? || r.value != Normalise(v)
  {
    hide Parse, ParseItems, PrintItems, ToBigEndian, FromBigEndian;
    var v, body := Arr(items), PrintItems(items);
    var head := [LIST] + ToBigEndian(4, |items|);
    assert Print(v) == head + (body + [NIL]);
    assert TokensBytes([]) + body == body;
    var s := Print(v) + rest;
    ListHeader(|items|, body + [NIL], rest);
    ConcatAssoc(body, [NIL], rest);
    ListUnfold(lib, s, |items|);
    var r := ItemsResidue(items, []);
    if r.Some? {
      var all := r.value + [NilToken];
      var used := |body| - |TokensBytes(r.value)|;
      ListTail(body, r.value, rest);
      DropDrop(s, 5, used);
      assert s[5 + used] == s[5 + used..][0] == TokenBytes(all[0])[0];
      if all[0] == NilToken {
        ItemsStep(Print(v), body + [NIL], 5, Some(all[1..]));
      }
    }
  }

  lemma ListHeader(n: nat, body: seq<byte>, rest: seq<byte>)
    requires n < TWO_32
    ensures var s := [LIST] + ToBigEndian(4, n) + body + rest;
            FromBigEndian(s[1..][..4]) == n && s[5..] == body + rest && ([LIST] + ToBigEndian(4, n) + body)[5..] == body
  {
    hide FromBigEndian, ToBigEndian;
    var s := [LIST] + ToBigEndian(4, n) + body + rest;
    assert s[1..] == ToBigEndian(4, n) + (body + rest);
    Pow256Values();
    BigEndianField(4, n, body + rest);
  }

  /** The bytes in front of the reader where the tail of the list is due. */
  lemma ListTail(body: seq<byte>, left: seq<Token>, rest: seq<byte>)
    requires EndsWith(body, left)
    ensures var all := left + [NilToken];
            var used := |body| - |TokensBytes(left)|;
            && (body + ([NIL] + rest))[used..] == TokensBytes(all) + rest
            && TokensBytes(all) == TokenBytes(all[0]) + TokensBytes(all[1..])
            && (all[0] == NilToken ==> EndsWith(body + [NIL], all[1..]))
  {
    var all, tl := left + [NilToken], TokensBytes(left);
    NilAppended(left);
    SplitAtTokens(body, tl, rest);
    assert TokensBytes(all) == TokenBytes(all[0]) + TokensBytes(all[1..]);
    if all[0] == NilToken {
      AfterNil(body + [NIL], |body| - |tl|, all);
    }
  }

  lemma NilAppended(left: seq<Token>)
    ensures TokensBytes(left + [NilToken]) == TokensBytes(left) + [NIL]
  {
    TokensConcat(left, [NilToken]);
    assert TokensBytes([NilToken]) == [NIL] + TokensBytes([]);
  }

  lemma SplitAtTokens(body: seq<byte>, tl: seq<byte>, rest: seq<byte>)
    requires |tl| <= |body| && body[|body| - |tl|..] == tl
    ensures (body + [NIL])[|body| - |tl|..] == tl + [NIL]
    ensures (body + ([NIL] + rest))[|body| - |tl|..] == tl + [NIL] + rest
  {
    var pre := body[..|body| - |tl|];
    assert body == pre + tl;
    ConcatAssoc(pre, tl, [NIL]);
    ConcatAssoc(pre, tl, [NIL] + rest);
    ConcatAssoc(tl, [NIL], rest);
  }

  lemma AfterNil(whole: seq<byte>, used: nat, all: seq<Token>)
    requires used <= |whole| && all != [] && all[0] == NilToken && whole[used..] == TokensBytes(all)
    ensures EndsWith(whole, all[1..])
  {
    var more := TokensBytes(all[1..]);
    assert TokensBytes(all) == [NIL] + more;
    DropDrop(whole, used, 1);
    assert whole[used + 1..] == more;
  }

  // ----------------------------------------------------------------------- maps

  /** Every key of `a` is below every key of `b`. */
  ghost predicate Below(a: seq<Field>, b: seq<Field>) {
    forall i, j :: 0 <= i < |a| && 0 <= j < |b| ==> KeyLess(a[i].key, b[j].key)
  }

  ghost predicate FieldsOutcome(r: ParsedFields, want: seq<Field>, whole: seq<byte>, left: Option<seq<Token>>) {
    match left
    case Some(t) => EndsWith(whole, t) && r == DoneFields(want, |whole| - |TokensBytes(t)|)
    case None => r.FailFields? || r.fields != want
  }

  ghost predicate FieldsFit(fields: seq<Field>) {
    forall i :: 0 <= i < |fields| ==>
      && |fields[i].key| < TWO_32
      && ContainersFit(fields[i].value) && StringsFit(fields[i].value) && Canonical(fields[i].value)
  }

  lemma {:induction false} FieldsLeave(lib: FloatLib, fields: seq<Field>, acc: seq<Field>, rest: seq<byte>)
    requires FieldsFit(fields)
    requires KeysSorted(acc) && KeysSorted(fields) && Below(acc, fields)
    ensures FieldsOutcome(ParseFields(lib, PrintFields(fields) + rest, |fields|, acc),
                          acc + NormaliseFields(fields), PrintFields(fields), FieldsResidue(fields))
    decreases fields, 1
  {
    hide Parse, ParseFields, Print, PrintStr, TokenBytes, Normalise, ContainersFit, StringsFit, Canonical;
    if fields == [] {
      assert acc + NormaliseFields(fields) == acc;
      FieldsNil(lib, PrintFields(fields) + rest, acc);
    } else {
      var key, value, tail := fields[0].key, fields[0].value, fields[1..];
      var whole, after := PrintFields(fields), PrintFields(tail) + rest;
      TermLeaves(lib, value, after);
      FirstField(lib, fields, rest);
      FieldsUnfold(lib, whole + rest, |fields|, acc, key, |PrintStr(key)|);
      var v := Parse(lib, Print(value) + after);
      if v.Done? {
        EmplaceLast(acc, key, v.value);
        SortedTail(acc, fields, v.value);
        var used := |PrintStr(key)| + v.used;
        if v.value != Normalise(value) {
          FirstValueWins(lib, (whole + rest)[used..], |tail|, acc, fields, v.value);
        } else {
          FieldsLeaveAfter(lib, fields, acc, Residue(value).value, used, rest);
        }
      }
    }
  }

  lemma FieldsNil(lib: FloatLib, s: seq<byte>, acc: seq<Field>)
    ensures ParseFields(lib, s, 0, acc) == DoneFields(acc, 0)
  {
  }

  lemma FirstField(lib: FloatLib, fields: seq<Field>, rest: seq<byte>)
    requires fields != [] && |fields[0].key| < TWO_32
    ensures var key, value := fields[0].key, fields[0].value;
            var s := PrintFields(fields) + rest;
            && Parse(lib, s) == Done(Str(key), |PrintStr(key)|)
            && |PrintFields(fields)| >= |PrintStr(key)| + |Print(value)|
            && s[|PrintStr(key)|..] == Print(value) + (PrintFields(fields[1..]) + rest)
            && PrintFields(fields)[|PrintStr(key)|..] == Print(value) + PrintFields(fields[1..])
  {
    hide Parse, Print, PrintStr;
    var k, v, t := PrintStr(fields[0].key), Print(fields[0].value), PrintFields(fields[1..]);
    ConcatAssoc(k, v, t);
    ConcatAssoc(k, v + t, rest);
    ConcatAssoc(v, t, rest);
    StrRoundTrip(lib, fields[0].key, v + t + rest);
  }

  /** The first field was read right and took `used` bytes; on with the others. */
  lemma {:induction false} FieldsLeaveAfter(lib: FloatLib, fields: seq<Field>, acc: seq<Field>, left: seq<Token>,
                                            used: nat, rest: seq<byte>)
    requires FieldsFit(fields) && fields != []
    requires KeysSorted(acc) && KeysSorted(fields) && Below(acc, fields)
    requires Residue(fields[0].value) == Some(left) && EndsWith(Print(fields[0].value), left)
    requires used == |PrintStr(fields[0].key)| + |Print(fields[0].value)| - |TokensBytes(left)|
    ensures used <= |PrintFields(fields) + rest|
    ensures var acc' := acc + [Field(fields[0].key, Normalise(fields[0].value))];
            var t := ParseFields(lib, (PrintFields(fields) + rest)[used..], |fields| - 1, acc');
            FieldsOutcome(if t.FailFields? then FailFields else DoneFields(t.fields, used + t.used),
                          acc + NormaliseFields(fields), PrintFields(fields), FieldsResidue(fields))
    decreases fields, 0
  {
    hide Parse, ParseFields, Print, PrintStr, PrintFields, TokensBytes, Normalise, Residue;
    hide ContainersFit, StringsFit, Canonical, KeysSorted, Below;
    var key, value, tail := fields[0].key, fields[0].value, fields[1..];
    var whole, body := PrintFields(fields), PrintFields(tail);
    AfterFirstField(lib, fields, left, used, rest);
    var acc' := acc + [Field(key, Normalise(value))];
    assert acc' + NormaliseFields(tail) == acc + NormaliseFields(fields);
    if left == [] {
      NoTokens();
      SortedTail(acc, fields, Normalise(value));
      FieldsLeave(lib, tail, acc', rest);
      ItemsStep(whole, body, used, FieldsResidue(tail));
    } else if tail == [] {
      PrintNothing();
      FieldsNil(lib, (whole + rest)[used..], acc');
    } else {
      TokenKey(lib, left, body + rest);
      ArrayKeyThrows(lib, (whole + rest)[used..], |tail|, acc', |TokenBytes(left[0])|);
    }
  }

  lemma NoTokens()
    ensures forall s :: TokensBytes([]) + s == s
  {
  }

  lemma TokenKey(lib: FloatLib, left: seq<Token>, rest: seq<byte>)
    requires left != []
    ensures Parse(lib, TokensBytes(left) + rest) == Done(Arr([]), |TokenBytes(left[0])|)
  {
    hide Parse, TokenBytes;
    ConcatAssoc(TokenBytes(left[0]), TokensBytes(left[1..]), rest);
    TokenReadsAsEmptyArray(lib, left[0], TokensBytes(left[1..]) + rest);
  }

  /** What is in front of the reader after the first field. */
  lemma AfterFirstField(lib: FloatLib, fields: seq<Field>, left: seq<Token>, used: nat, rest: seq<byte>)
    requires fields != [] && |fields[0].key| < TWO_32
    requires EndsWith(Print(fields[0].value), left)
    requires used == |PrintStr(fields[0].key)| + |Print(fields[0].value)| - |TokensBytes(left)|
    ensures used <= |PrintFields(fields)|
    ensures PrintFields(fields)[used..] == TokensBytes(left) + PrintFields(fields[1..])
    ensures (PrintFields(fields) + rest)[used..] == TokensBytes(left) + (PrintFields(fields[1..]) + rest)
  {
    hide Parse, Print, PrintStr, PrintFields, TokensBytes;
    var key, value, body := PrintStr(fields[0].key), Print(fields[0].value), PrintFields(fields[1..]);
    var whole, tokens := PrintFields(fields), TokensBytes(left);
    FirstField(lib, fields, rest);
    var pre := value[..|value| - |tokens|];
    assert value == pre + tokens;
    ConcatAssoc(pre, tokens, body);
    DropDrop(whole, |key|, |pre|);
    assert (whole + rest)[used..] == whole[used..] + rest;
    ConcatAssoc(tokens, body, rest);
  }

  lemma ArrayKeyThrows(lib: FloatLib, s: seq<byte>, n: nat, acc: seq<Field>, used: nat)
    requires n > 0 && Parse(lib, s) == Done(Arr([]), used)
    ensures ParseFields(lib, s, n, acc) == FailFields
  {
    hide Parse;
  }

  lemma SortedTail(acc: seq<Field>, fields: seq<Field>, value: Json)
    requires fields != [] && KeysSorted(acc) && KeysSorted(fields) && Below(acc, fields)
    ensures KeysSorted(acc + [Field(fields[0].key, value)]) && KeysSorted(fields[1..])
    ensures Below(acc + [Field(fields[0].key, value)], fields[1..])
  {
  }

  /** A field once in the map is in the map at the end. */
  lemma {:induction false} FieldsKept(lib: FloatLib, s: seq<byte>, n: nat, acc: seq<Field>, f: Field)
    requires KeysSorted(acc) && f in acc
    ensures ParseFields(lib, s, n, acc).DoneFields? ==> f in ParseFields(lib, s, n, acc).fields
    decreases n
  {
    if n > 0 {
      var k := Parse(lib, s);
      if k.Done? {
        var v := Parse(lib, s[k.used..]);
        if v.Done? && KeyText(lib, k.value).Some? {
          var key := KeyText(lib, k.value).value;
          EmplaceMeaning(acc, key, v.value);
          FieldsKept(lib, s[k.used + v.used..], n - 1, Emplace(acc, key, v.value), f);
        }
      }
    }
  }

  /** A wrong value stored for the first key of `fields` cannot be corrected later. */
  lemma FirstValueWins(lib: FloatLib, s: seq<byte>, n: nat, acc: seq<Field>, fields: seq<Field>, wrong: Json)
    requires fields != [] && KeysSorted(acc) && KeysSorted(fields) && Below(acc, fields)
    requires wrong != Normalise(fields[0].value)
    ensures var r := ParseFields(lib, s, n, acc + [Field(fields[0].key, wrong)]);
            r.FailFields? || r.fields != acc + NormaliseFields(fields)
  {
    hide Parse, ParseFields;
    var bad := Field(fields[0].key, wrong);
    var acc' := acc + [bad];
    SortedTail(acc, fields, wrong);
    assert acc'[|acc|] == bad;
    FieldsKept(lib, s, n, acc', bad);
    var want := acc + NormaliseFields(fields);
    if i :| 0 <= i < |want| && want[i] == bad {
      if i < |acc| {
        assert KeyLess(acc[i].key, fields[0].key);
      } else if i > |acc| {
        assert want[i].key == fields[i - |acc|].key;
        assert KeyLess(fields[0].key, fields[i - |acc|].key);
      }
      KeyLessIrreflexive(bad.key);
    }
  }

  lemma MapLeaves(lib: FloatLib, fields: seq<Field>, rest: seq<byte>)
    requires |fields| <= MAX_ENTRIES
    requires FieldsOutcome(ParseFields(lib, PrintFields(fields) + rest, |fields|, []),
                           [] + NormaliseFields(fields), PrintFields(fields), FieldsResidue(fields))
    ensures var v := Obj(fields);
            var r := Parse(lib, Print(v) + rest);
            if Residue(v).Some? then Leaves(r, Normalise(v), Print(v), Residue(v).value)
            else r.Fail? || r.value != Normalise(v)
  {
    hide Parse, ParseFields, PrintFields, ToBigEndian, FromBigEndian;
    var v, body := Obj(fields), PrintFields(fields);
    assert [] + NormaliseFields(fields) == NormaliseFields(fields);
    assert Print(v) == [MAP] + ToBigEndian(4, |fields|) + body;
    MapUnfold(lib, |fields|, body, rest);
    ItemsStep(Print(v), body, 5, FieldsResidue(fields));
  }

  lemma MapUnfold(lib: FloatLib, n: nat, body: seq<byte>, rest: seq<byte>)
    requires n < TWO_32
    ensures var whole := [MAP] + ToBigEndian(4, n) + body;
            var fields := ParseFields(lib, body + rest, n, []);
            && whole[5..] == body
            && Parse(lib, whole + rest) == if fields.FailFields? then Fail
                                           else Done(if n == 0 then Null else Obj(fields.fields), 5 + fields.used)
  {
    var s := [MAP] + ToBigEndian(4, n) + body + rest;
    assert s[1..] == ToBigEndian(4, n) + (body + rest);
    Pow256Values();
    BigEndianField(4, n, body + rest);
    assert s[1..][4..] == body + rest;
    assert Parse(lib, s) == var r := ParseMap(lib, s[1..]); if r.Fail? then Fail else Done(r.value, 1 + r.used);
  }
}

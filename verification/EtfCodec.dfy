/** `etf_buffer` and `etf_parser`: the growing output buffer, the cursor over the input and the
    recursive methods over them, proved against the functions of `EtfTerm`. */
module EtfCodec {
  import opened Bytes
  import opened EtfJson
  import opened EtfTerm
  import opened EtfRoundTrip

  // ------------------------------------------------------------------ building

  class EtfBuffer {
    var buf: seq<byte>
    var length: nat

    ghost predicate Valid()
      reads this
    {
      length <= |buf|
    }

    ghost function Contents(): (s: seq<byte>)
      requires Valid()
      reads this
    {
      buf[..length]
    }

    constructor (initial: nat)
      ensures Valid() && Contents() == []
    {
      buf := seq(initial, _ => 0);
      length := 0;
    }

    /** `buffer_write`: grows the buffer to twice what is needed, then copies. */
    method Write(bytes: seq<byte>)
      requires Valid()
      modifies this
      ensures Valid() && Contents() == old(Contents()) + bytes
    {
      var l := |bytes|;
      if length + l > |buf| {
        buf := buf + seq((length + l) * 2 - |buf|, _ => 0);
      }
      buf := buf[..length] + bytes + buf[length + l..];
      length := length + l;
    }
  }

  /** The loop of `append_unsigned_long_long` and `append_long_long`: it peels bytes off the low end
      into a fixed array. */
  method FillMagnitude(out: array<byte>, number: u64) returns (bytesEnc: nat)
    requires out.Length == 11
    modifies out
    ensures bytesEnc == |ToLittleEndian(number)| <= 8 && out[3..3 + bytesEnc] == ToLittleEndian(number)
  {
    Pow256Values();
    LittleEndianLength(number, 8);
    var d: nat := number;
    bytesEnc := 0;
    while d > 0
      invariant bytesEnc + |ToLittleEndian(d)| == |ToLittleEndian(number)|
      invariant out[3..3 + bytesEnc] + ToLittleEndian(d) == ToLittleEndian(number)
    {
      ghost var before := out[3..3 + bytesEnc];
      assert ToLittleEndian(d) == [d % 256] + ToLittleEndian(d / 256);
      out[3 + bytesEnc] := d % 256;
      assert out[3..3 + bytesEnc + 1] == before + [d % 256];
      ConcatAssoc(before, [d % 256], ToLittleEndian(d / 256));
      d := d / 256;
      bytesEnc := bytesEnc + 1;
    }
  }

  method AppendMagnitude(b: EtfBuffer, sign: byte, number: u64)
    requires b.Valid()
    modifies b
    ensures b.Valid() && b.Contents() == old(b.Contents()) + PrintBigint(sign, number)
  {
    hide ToLittleEndian;
    var out := new byte[11];
    var bytesEnc := FillMagnitude(out, number);
    ghost var digits := out[3..3 + bytesEnc];
    out[0] := BIGINT_SMALL;
    out[1] := bytesEnc;
    out[2] := sign;
    assert out[3..3 + bytesEnc] == digits;
    assert out[..3 + bytesEnc] == [BIGINT_SMALL, bytesEnc, sign] + digits;
    b.Write(out[..3 + bytesEnc]);
  }

  /** `append_long_long`: sign and magnitude. */
  method AppendLongLong(b: EtfBuffer, d: int)
    requires b.Valid() && -0x8000_0000_0000_0000 <= d < TWO_63
    modifies b
    ensures b.Valid() && b.Contents() == old(b.Contents()) + PrintLongLong(d)
  {
    AppendMagnitude(b, if d < 0 then 1 else 0, if d < 0 then -d else d);
  }

  method AppendBinary(b: EtfBuffer, s: seq<byte>)
    requires b.Valid()
    modifies b
    ensures b.Valid() && b.Contents() == old(b.Contents()) + PrintStr(s)
  {
    b.Write([BINARY] + ToBigEndian(4, |s|));
    b.Write(s);
    ConcatAssoc(old(b.Contents()), [BINARY] + ToBigEndian(4, |s|), s);
  }

  method AppendInteger(b: EtfBuffer, number: int)
    requires b.Valid() && -0x8000_0000_0000_0000 <= number < TWO_63
    modifies b
    ensures b.Valid() && b.Contents() == old(b.Contents()) + PrintInt(number)
  {
    hide PrintBigint, ToBigEndian, ToInt32;
    if 0 <= number <= 127 {
      b.Write([SMALL_INT, number]);
    } else if number >= TWO_32 - 2 {
      AppendMagnitude(b, 0, number);
    } else {
      LowWord(number);
      b.Write([INTEGER] + ToBigEndian(4, ToInt32(number) % TWO_32));
    }
  }

  lemma LowWord(number: int)
    ensures ToInt32(number) % TWO_32 == number % TWO_32
  {
  }

  /** `inner_build`. It gives up, as the exception does, exactly when a list or map is too long. */
  method InnerBuild(v: Json, b: EtfBuffer) returns (ok: bool)
    requires b.Valid()
    modifies b
    ensures b.Valid()
    ensures ok <==> ContainersFit(v)
    ensures ok ==> b.Contents() == old(b.Contents()) + Print(v)
    decreases v, 1
  {
    hide PrintInt, PrintStr, PrintItems, PrintFields, ToBigEndian, ToInt64;
    ok := true;
    match v
    case Null => b.Write([ATOM_SMALL, 3] + A_NIL);
    case Bool(t) =>
      if t {
        b.Write([ATOM_SMALL, 4] + A_TRUE);
      } else {
        b.Write([ATOM_SMALL, 5] + A_FALSE);
      }
    case Int(n) => AppendInteger(b, ToInt64(n));
    case Float(bits) => b.Write([NEW_FLOAT] + ToBigEndian(8, bits));
    case Str(s) => AppendBinary(b, s);
    case Arr(items) => ok := BuildArray(items, b);
    case Obj(fields) => ok := BuildObject(fields, b);
  }

  /** The array branch: a nil for an empty one, then a list in any case. */
  method BuildArray(items: seq<Json>, b: EtfBuffer) returns (ok: bool)
    requires b.Valid()
    modifies b
    ensures b.Valid()
    ensures ok <==> ContainersFit(Arr(items))
    ensures ok ==> b.Contents() == old(b.Contents()) + Print(Arr(items))
    decreases items, 1
  {
    hide Print, PrintItems, ToBigEndian;
    if |items| == 0 {
      b.Write([NIL]);
    } else if |items| > MAX_ENTRIES {
      return false;
    }
    b.Write([LIST] + ToBigEndian(4, |items|));
    ok := BuildItems(items, b);
    if ok {
      b.Write([NIL]);
      ListConcat(old(b.Contents()), items);
    }
  }

  method BuildObject(fields: seq<Field>, b: EtfBuffer) returns (ok: bool)
    requires b.Valid()
    modifies b
    ensures b.Valid()
    ensures ok <==> ContainersFit(Obj(fields))
    ensures ok ==> b.Contents() == old(b.Contents()) + Print(Obj(fields))
    decreases fields, 1
  {
    hide PrintFields, ToBigEndian;
    if |fields| > MAX_ENTRIES {
      return false;
    }
    b.Write([MAP] + ToBigEndian(4, |fields|));
    ok := BuildFields(fields, b);
    ConcatAssoc(old(b.Contents()), [MAP] + ToBigEndian(4, |fields|), PrintFields(fields));
  }

  lemma ListConcat(before: seq<byte>, items: seq<Json>)
    ensures var head := before + (if items == [] then [NIL] else []);
            head + ([LIST] + ToBigEndian(4, |items|)) + PrintItems(items) + [NIL] == before + Print(Arr(items))
  {
    hide PrintItems, ToBigEndian;
    var mark: seq<byte> := if items == [] then [NIL] else [];
    var body := PrintItems(items);
    var field := ToBigEndian(4, |items|);
    var head := [LIST] + field;
    assert Print(Arr(items)) == mark + [LIST] + field + body + [NIL];
    ConcatAssoc(mark, [LIST], field);
    ConcatAssoc(before, mark, head);
    ConcatAssoc(before, mark + head, body);
    ConcatAssoc(before, mark + head + body, [NIL]);
  }

  /** The loop over the elements of an array. */
  method BuildItems(items: seq<Json>, b: EtfBuffer) returns (ok: bool)
    requires b.Valid()
    modifies b
    ensures b.Valid()
    ensures ok <==> forall i :: 0 <= i < |items| ==> ContainersFit(items[i])
    ensures ok ==> b.Contents() == old(b.Contents()) + PrintItems(items)
    decreases items, 0
  {
    hide Print, ContainersFit;
    ok := true;
    for index := 0 to |items|
      invariant b.Valid()
      invariant forall i :: 0 <= i < index ==> ContainersFit(items[i])
      invariant b.Contents() + PrintItems(items[index..]) == old(b.Contents()) + PrintItems(items)
    {
      ghost var before := b.Contents();
      ok := InnerBuild(items[index], b);
      if !ok {
        return;
      }
      assert items[index..][0] == items[index] && items[index..][1..] == items[index + 1..];
      ConcatAssoc(before, Print(items[index]), PrintItems(items[index + 1..]));
    }
    assert PrintItems(items[|items|..]) == [];
  }

  /** The loop over the fields of an object: each key is built as a string, then its value. */
  method BuildFields(fields: seq<Field>, b: EtfBuffer) returns (ok: bool)
    requires b.Valid()
    modifies b
    ensures b.Valid()
    ensures ok <==> forall i :: 0 <= i < |fields| ==> ContainersFit(fields[i].value)
    ensures ok ==> b.Contents() == old(b.Contents()) + PrintFields(fields)
    decreases fields, 0
  {
    hide Print, PrintStr, ContainersFit;
    ok := true;
    for n := 0 to |fields|
      invariant b.Valid()
      invariant forall i :: 0 <= i < n ==> ContainersFit(fields[i].value)
      invariant b.Contents() + PrintFields(fields[n..]) == old(b.Contents()) + PrintFields(fields)
    {
      ghost var before := b.Contents();
      ghost var key, value := PrintStr(fields[n].key), Print(fields[n].value);
      AppendBinary(b, fields[n].key);
      ok := InnerBuild(fields[n].value, b);
      if !ok {
        return;
      }
      assert fields[n..][0] == fields[n] && fields[n..][1..] == fields[n + 1..];
      ConcatAssoc(before, key, value);
      ConcatAssoc(before, key + value, PrintFields(fields[n + 1..]));
    }
    assert PrintFields(fields[|fields|..]) == [];
  }

  /** `etf_parser::build`. */
  method BuildMessage(v: Json) returns (r: Option<seq<byte>>)
    ensures r == Build(v)
  {
    var pk := new EtfBuffer(1024 * 1024);
    pk.Write([FORMAT_VERSION]);
    var ok := InnerBuild(v, pk);
    assert [] + [FORMAT_VERSION] == [FORMAT_VERSION];
    r := if ok then Some(pk.buf[..pk.length]) else None;
  }

  // ------------------------------------------------------------------- parsing

  class EtfParser {
    const lib: FloatLib
    var data: seq<byte>
    var size: nat
    var offset: nat

    ghost predicate Valid()
      reads this
    {
      size == |data| && offset <= size
    }

    /** The bytes in front of the cursor. */
    ghost function Ahead(): (s: seq<byte>)
      requires Valid()
      reads this
    {
      data[offset..]
    }

    /** The outcome of a reader that started at `start`: the parsed value, and the cursor moved by
        the bytes it took. */
    ghost predicate Outcome(expected: Parsed, start: nat, ok: bool, v: Json)
      reads this
    {
      && ok == expected.Done?
      && (ok ==> v == expected.value && offset == start + expected.used)
    }

    constructor (lib: FloatLib)
      ensures Valid() && this.lib == lib
    {
      this.lib := lib;
      data, size, offset := [], 0, 0;
    }

    /** `read_8_bits` to `read_64_bits`: `w` bytes in network order, or the exception. */
    method ReadBits(w: nat) returns (ok: bool, val: nat)
      requires Valid()
      modifies this`offset
      ensures Valid()
      ensures ok <==> |old(Ahead())| >= w
      ensures ok ==> offset == old(offset) + w && val == FromBigEndian(old(Ahead())[..w])
      ensures !ok ==> offset == old(offset)
    {
      if offset + w > size {
        return false, 0;
      }
      assert Ahead()[..w] == data[offset..offset + w];
      val := FromBigEndian(data[offset..offset + w]);
      offset := offset + w;
      ok := true;
    }

    /** `read_string`: null, and no move, when the text runs past the end. */
    method ReadString(length: nat) returns (str: Option<seq<byte>>)
      requires Valid()
      modifies this`offset
      ensures Valid()
      ensures str.Some? <==> |old(Ahead())| >= length
      ensures str.Some? ==> str.value == old(Ahead())[..length] && offset == old(offset) + length
      ensures str.None? ==> offset == old(offset)
    {
      if offset + length > size {
        return None;
      }
      assert Ahead()[..length] == data[offset..offset + length];
      str := Some(data[offset..offset + length]);
      offset := offset + length;
    }

    /** `decode_atom` and `decode_small_atom`. */
    method DecodeAtom(w: nat) returns (ok: bool, v: Json)
      requires Valid()
      modifies this`offset
      ensures Valid() && Outcome(ParseAtom(old(Ahead()), w), old(offset), ok, v)
    {
      ghost var t := Ahead();
      var length: nat;
      v := Null;
      ok, length := ReadBits(w);
      if ok {
        assert Ahead() == t[w..];
        var atom := ReadString(length);
        if atom.Some? {
          v := AtomValue(atom.value);
          assert t[w..][..length] == t[w..w + length];
        }
      }
    }

    method DecodeBinary() returns (ok: bool, v: Json)
      requires Valid()
      modifies this`offset
      ensures Valid() && Outcome(ParseBinary(old(Ahead())), old(offset), ok, v)
    {
      ghost var t := Ahead();
      var length: nat;
      v := Null;
      ok, length := ReadBits(4);
      if ok {
        assert Ahead() == t[4..];
        var str := ReadString(length);
        if str.Some? {
          v := Str(str.value);
          assert t[4..][..length] == t[4..4 + length];
        }
      }
    }

    method DecodeFloat() returns (ok: bool, v: Json)
      requires Valid()
      modifies this`offset
      ensures Valid() && Outcome(ParseFloat(lib, old(Ahead())), old(offset), ok, v)
    {
      ok, v := true, Null;
      var floatStr := ReadString(31);
      if floatStr.Some? {
        var number := lib.scan(floatStr.value);
        if number.Some? {
          v := Float(number.value);
        }
      }
    }

    /** `decode_string_as_list`. */
    method DecodeByteList() returns (ok: bool, v: Json)
      requires Valid()
      modifies this`offset
      ensures Valid() && Outcome(ParseByteList(old(Ahead())), old(offset), ok, v)
    {
      ghost var t := Ahead();
      var length: nat;
      v := Null;
      ok, length := ReadBits(2);
      if !ok {
        return;
      }
      ghost var start := offset;
      if offset + length > size {
        return false, Null;
      }
      var items: seq<Json> := [];
      for i := 0 to length
        invariant Valid() && offset == start + i && start + length <= size
        invariant |items| == i && forall k :: 0 <= k < i ==> items[k] == Int(data[start + k])
      {
        items := items + [Int(data[offset])];
        offset := offset + 1;
      }
      v := Arr(items);
    }

    /** The digit loop of `decode_bigint`: the weight of a byte is a 64-bit word shifted by eight. */
    method ReadMagnitude(digits: nat) returns (ok: bool, value: u64)
      requires Valid() && digits <= 8
      modifies this`offset
      ensures Valid()
      ensures ok <==> |old(Ahead())| >= digits
      ensures ok ==> offset == old(offset) + digits && value == FromLittleEndian(old(Ahead())[..digits])
    {
      hide FromLittleEndian, Pow256, AddDigit, ShiftLeft;
      ghost var start := offset;
      NoMagnitude();
      value, ok := 0, true;
      var b := 1;
      for i := 0 to digits
        invariant Valid() && offset == start + i
        invariant value == FromLittleEndian(data[start..start + i])
        invariant b == Pow256(i) % TWO_64
      {
        if offset + 1 > size {
          return false, 0;
        }
        var digit := data[offset];
        assert data[start..start + i + 1] == data[start..start + i] + [digit];
        MagnitudeStep(data[start..start + i], digit, b);
        offset := offset + 1;
        value := AddDigit(value, digit, b);
        b := ShiftLeft(b);
      }
      assert old(Ahead())[..digits] == data[start..start + digits];
    }

    /** `decode_bigint_small` and `decode_bigint_large`. */
    method DecodeBigint(w: nat) returns (ok: bool, v: Json)
      requires Valid()
      modifies this`offset
      ensures Valid() && Outcome(ParseBigint(old(Ahead()), w), old(offset), ok, v)
    {
      hide FromBigEndian, FromLittleEndian, BigintText;
      ghost var t := Ahead();
      var digits: nat, value: u64;
      v := Null;
      ok, digits := ReadBits(w);
      if !ok {
        return;
      }
      if offset >= size || digits > 8 {
        return false, Null;
      }
      var sign := data[offset];
      offset := offset + 1;
      assert Ahead() == t[w + 1..];
      ok, value := ReadMagnitude(digits);
      if ok {
        assert t[w + 1..][..digits] == t[w + 1..w + 1 + digits];
        v := Str(BigintText(sign, digits, value));
      }
    }

    /** `decode_array`: `length` terms in a row. */
    method DecodeArray(length: nat) returns (ok: bool, items: seq<Json>)
      requires Valid()
      modifies this`offset
      ensures Valid()
      ensures var r := ParseItems(lib, old(Ahead()), length);
              && ok == r.DoneItems?
              && (ok ==> items == r.items && offset == old(offset) + r.used)
      decreases size - offset, 2
    {
      hide Parse, ParseItems;
      ghost var start := offset;
      items, ok := [], true;
      ItemsUnfold(lib, Ahead(), 0);
      for i := 0 to length
        invariant Valid() && start <= offset
        invariant ParseItems(lib, data[start..], length)
                  == After(items, offset - start, ParseItems(lib, data[offset..], length - i))
        invariant i == 0 ==> offset == start
      {
        ghost var here := offset;
        var item: Json;
        ItemsUnfold(lib, data[here..], length - i);
        ok, item := InnerParse();
        if !ok {
          return;
        }
        DropDrop(data, here, offset - here);
        AfterStep(items, item, here - start, offset - here, ParseItems(lib, data[offset..], length - i - 1));
        items := items + [item];
      }
      ItemsUnfold(lib, data[offset..], 0);
    }

    /** `decode_list`, after its tag. */
    method DecodeList() returns (ok: bool, v: Json)
      requires Valid()
      modifies this`offset
      ensures Valid() && Outcome(ParseList(lib, old(Ahead())), old(offset), ok, v)
      decreases size - offset, 3
    {
      hide Parse, ParseItems;
      ghost var t := Ahead();
      v := Null;
      var length: nat, items: seq<Json>, tailMarker: nat;
      ok, length := ReadBits(4);
      if ok {
        assert Ahead() == t[4..];
        ok, items := DecodeArray(length);
        if ok {
          ghost var used := offset - old(offset);
          DropDrop(data, old(offset), used);
          ok, tailMarker := ReadBits(1);
          if ok {
            OneByte(t[used..]);
            v := if tailMarker == NIL then Arr(items) else Null;
          }
        }
      }
    }

    /** `decode_tuple_small` and `decode_tuple_large`. */
    method DecodeTuple(w: nat) returns (ok: bool, v: Json)
      requires Valid() && w > 0
      modifies this`offset
      ensures Valid() && Outcome(ParseTuple(lib, old(Ahead()), w), old(offset), ok, v)
      decreases size - offset, 3
    {
      hide Parse, ParseItems;
      ghost var t := Ahead();
      v := Null;
      var length: nat, items: seq<Json>;
      ok, length := ReadBits(w);
      if ok {
        assert Ahead() == t[w..];
        ok, items := DecodeArray(length);
        v := Arr(items);
      }
    }

    /** `decode_map`: key, value, `emplace`, for each declared entry. */
    method DecodeMap() returns (ok: bool, v: Json)
      requires Valid()
      modifies this`offset
      ensures Valid() && Outcome(ParseMap(lib, old(Ahead())), old(offset), ok, v)
      decreases size - offset, 3
    {
      hide Parse, ParseFields, KeyText, Emplace;
      ghost var t := Ahead();
      v := Null;
      var length: nat;
      ok, length := ReadBits(4);
      if !ok {
        return;
      }
      assert Ahead() == t[4..];
      ghost var start := offset;
      var fields: seq<Field> := [];
      for i := 0 to length
        invariant Valid() && start <= offset
        invariant ParseFields(lib, data[start..], length, [])
                  == Later(offset - start, ParseFields(lib, data[offset..], length - i, fields))
      {
        ghost var here := offset;
        MapStep(lib, data[here..], length - i, fields);
        var key: Json, value: Json;
        ok, key := InnerParse();
        if !ok {
          return;
        }
        ghost var mid := offset;
        DropDrop(data, here, mid - here);
        ok, value := InnerParse();
        if !ok {
          return;
        }
        DropDrop(data, here, offset - here);
        var text := KeyText(lib, key);
        if text.None? {
          return false, Null;
        }
        fields := Emplace(fields, text.value, value);
      }
      FieldsNil(lib, data[offset..], fields);
      v := if length == 0 then Null else Obj(fields);
    }

    /** The node term that references, ports and process identifiers start with, and then `n` more
        bytes that must be there. */
    method ReadNode(n: nat) returns (ok: bool, node: Json, u: seq<byte>)
      requires Valid()
      modifies this`offset
      ensures Valid()
      ensures var r := Parse(lib, old(Ahead()));
              && ok == (r.Done? && |old(Ahead())| >= r.used + n)
              && (ok ==> node == r.value && offset == old(offset) + r.used + n
                         && u == old(Ahead())[r.used..r.used + n])
      decreases size - offset, 2
    {
      hide Parse;
      ghost var t := Ahead();
      u := [];
      ok, node := InnerParse();
      if ok {
        ghost var used := offset - old(offset);
        if offset + n > size {
          return false, Null, [];
        }
        u := data[offset..offset + n];
        assert u == t[used..used + n];
        offset := offset + n;
      }
    }

    /** `decode_reference`, `decode_port` and `decode_pid`. */
    method DecodeNode(tag: byte) returns (ok: bool, v: Json)
      requires Valid() && tag in {REFERENCE, PORT, PID}
      modifies this`offset
      ensures Valid()
      ensures Outcome(if tag == REFERENCE then ParseReference(lib, old(Ahead()))
                      else if tag == PORT then ParsePort(lib, old(Ahead()))
                      else ParsePid(lib, old(Ahead())), old(offset), ok, v)
      decreases size - offset, 3
    {
      hide Parse, FromBigEndian;
      ghost var t := Ahead();
      var node: Json, u: seq<byte>;
      v := Null;
      ok, node, u := ReadNode(if tag == PID then 9 else 5);
      if ok {
        ghost var used := Parse(lib, t).used;
        assert u == t[used..][..|u|];
        assert t[used..][..4] == u[..4];
        WordFits(u[..4]);
        var id := FromBigEndian(u[..4]);
        if tag == REFERENCE {
          v := Obj([Field(K_CREATION, Int(u[4])), Field(K_ID, Arr([Int(ToInt32(id))])), Field(K_NODE, node)]);
        } else if tag == PORT {
          v := Obj([Field(K_CREATION, Int(u[4])), Field(K_ID, Int(id)), Field(K_NODE, node)]);
        } else {
          assert t[used..][4..8] == u[4..8];
          WordFits(u[4..8]);
          v := Obj([Field(K_CREATION, Int(u[8])), Field(K_ID, Int(id)), Field(K_NODE, node),
                    Field(K_SERIAL, Int(FromBigEndian(u[4..8])))]);
        }
      }
    }

    /** The identifier loop of `decode_new_reference`. */
    static method ReadIds(u: seq<byte>, len: nat) returns (ids: seq<Json>)
      requires |u| == 4 * len
      ensures ids == Ids(u, len)
    {
      hide FromBigEndian;
      ids := [];
      for i := 0 to len
        invariant |ids| == i
        invariant ids + Ids(u[4 * i..], len - i) == Ids(u, len)
      {
        ghost var rest := u[4 * i..];
        assert rest[..4] == u[4 * i..4 * i + 4] && rest[4..] == u[4 * (i + 1)..];
        ConcatAssoc(ids, [Int(ToInt32(FromBigEndian(u[4 * i..4 * i + 4])))], Ids(u[4 * (i + 1)..], len - i - 1));
        ids := ids + [Int(ToInt32(FromBigEndian(u[4 * i..4 * i + 4])))];
      }
    }

    /** `decode_new_reference`. */
    method DecodeNewReference() returns (ok: bool, v: Json)
      requires Valid()
      modifies this`offset
      ensures Valid() && Outcome(ParseNewReference(lib, old(Ahead())), old(offset), ok, v)
      decreases size - offset, 3
    {
      hide Parse, FromBigEndian;
      ghost var t := Ahead();
      var len: nat, node: Json, u: seq<byte>;
      v := Null;
      ok, len := ReadBits(2);
      if ok {
        assert Ahead() == t[2..];
        ok, node, u := ReadNode(1 + 4 * len);
        if ok {
          ghost var used := Parse(lib, t[2..]).used;
          assert u == t[2 + used..][..1 + 4 * len];
          var ids := ReadIds(u[1..], len);
          assert t[2 + used..][1..][..4 * len] == u[1..][..4 * len];
          IdsPrefix(t[2 + used..][1..], u[1..], len);
          v := Obj([Field(K_CREATION, Int(u[0])), Field(K_ID, Arr(ids)), Field(K_NODE, node)]);
        }
      }
    }

    /** `decode_export`: module, function and arity, three terms in a row. */
    method DecodeExport() returns (ok: bool, v: Json)
      requires Valid()
      modifies this`offset
      ensures Valid() && Outcome(ParseExport(lib, old(Ahead())), old(offset), ok, v)
      decreases size - offset, 3
    {
      hide Parse, ParseItems;
      v := Null;
      var parts: seq<Json>;
      ok, parts := DecodeArray(3);
      if ok {
        v := Obj([Field(K_ARITY, parts[2]), Field(K_FUN, parts[1]), Field(K_MOD, parts[0])]);
      }
    }

    /** `inner_parse`: one term, by its tag. It ends on every input: each nested call starts at
        least one byte further on, whatever lengths the input declares. */
    method InnerParse() returns (ok: bool, v: Json)
      requires Valid()
      modifies this`offset
      ensures Valid() && Outcome(Parse(lib, old(Ahead())), old(offset), ok, v)
      ensures ok ==> old(offset) < offset <= size
      decreases size - offset, 1
    {
      hide ParseItems, ParseFields, FromBigEndian, FromLittleEndian;
      v := Null;
      if offset >= size {
        return false, Null;
      }
      var tag := data[offset];
      assert old(Ahead())[1..] == data[offset + 1..];
      offset := offset + 1;
      if tag == SMALL_INT {
        ok := offset < size;
        if ok {
          v := Int(data[offset]);
          offset := offset + 1;
        }
      } else if tag == INTEGER {
        var word: nat;
        ok, word := ReadBits(4);
        v := Int(ToInt32(word));
      } else if tag == FLOAT {
        ok, v := DecodeFloat();
      } else if tag == NEW_FLOAT {
        var bits: nat;
        ok, bits := ReadBits(8);
        if ok {
          Pow256Values();
          v := Float(bits);
        }
      } else if tag == ATOM {
        ok, v := DecodeAtom(2);
      } else if tag == ATOM_SMALL {
        ok, v := DecodeAtom(1);
      } else if tag == SMALL_TUPLE {
        ok, v := DecodeTuple(1);
      } else if tag == LARGE_TUPLE {
        ok, v := DecodeTuple(4);
      } else if tag == NIL {
        ok, v := true, Arr([]);
      } else if tag == STRING {
        ok, v := DecodeByteList();
      } else if tag == LIST {
        ok, v := DecodeList();
      } else if tag == MAP {
        ok, v := DecodeMap();
      } else if tag == BINARY {
        ok, v := DecodeBinary();
      } else if tag == BIGINT_SMALL {
        ok, v := DecodeBigint(1);
      } else if tag == BIGINT_LARGE {
        ok, v := DecodeBigint(4);
      } else if tag == REFERENCE || tag == PORT || tag == PID {
        ok, v := DecodeNode(tag);
      } else if tag == NEW_REFERENCE {
        ok, v := DecodeNewReference();
      } else if tag == EXPORT {
        ok, v := DecodeExport();
      } else {
        ok := false;
      }
    }

    /** `etf_parser::parse`. */
    method ParseString(s: seq<byte>) returns (r: Option<Json>)
      requires Valid()
      modifies this
      ensures Valid() && r == ParseMessage(lib, s)
    {
      hide Parse;
      offset, size, data := 0, |s|, s;
      var ok: bool, version: nat, v: Json;
      ok, version := ReadBits(1);
      if ok {
        OneByte(s);
        assert Ahead() == s[1..];
        if version == FORMAT_VERSION {
          ok, v := InnerParse();
          return if ok then Some(v) else None;
        }
      }
      r := None;
    }
  }

  // ------------------------------------------------------- loop bookkeeping

  /** A result continued after items already read. */
  ghost function After(items: seq<Json>, used: nat, r: ParsedItems): (s: ParsedItems) {
    if r.FailItems? then FailItems else DoneItems(items + r.items, used + r.used)
  }

  lemma AfterStep(items: seq<Json>, item: Json, used: nat, more: nat, r: ParsedItems)
    ensures After(items, used, After([item], more, r)) == After(items + [item], used + more, r)
  {
    if r.DoneItems? {
      ConcatAssoc(items, [item], r.items);
    }
  }

  ghost function Later(used: nat, r: ParsedFields): (s: ParsedFields) {
    if r.FailFields? then FailFields else DoneFields(r.fields, used + r.used)
  }

  lemma MapStep(lib: FloatLib, s: seq<byte>, n: nat, acc: seq<Field>)
    requires n > 0
    ensures var k := Parse(lib, s);
            ParseFields(lib, s, n, acc) ==
            if k.Fail? then FailFields
            else
              var v := Parse(lib, s[k.used..]);
              if v.Fail? || KeyText(lib, k.value).None? then FailFields
              else Later(k.used + v.used, ParseFields(lib, s[k.used + v.used..], n - 1,
                                                      Emplace(acc, KeyText(lib, k.value).value, v.value)))
  {
    hide Parse;
  }

  lemma {:induction false} LittleEndianAppend(s: seq<byte>, x: byte)
    ensures FromLittleEndian(s + [x]) == FromLittleEndian(s) + x * Pow256(|s|)
  {
    if s != [] {
      LittleEndianAppend(s[1..], x);
      assert (s + [x])[1..] == s[1..] + [x];
      LittleEndianHead(s);
      LittleEndianHead(s + [x]);
      hide FromLittleEndian;
      assert Pow256(|s|) == 256 * Pow256(|s| - 1);
      Weighted(x, Pow256(|s| - 1));
    } else {
      assert FromLittleEndian([x][1..]) == 0;
    }
  }

  lemma LittleEndianHead(s: seq<byte>)
    requires s != []
    ensures FromLittleEndian(s) == s[0] + 256 * FromLittleEndian(s[1..])
  {
  }

  lemma Weighted(x: nat, p: nat)
    ensures x * (256 * p) == 256 * (x * p)
  {
  }

  lemma NoMagnitude()
    ensures FromLittleEndian([]) == 0 && Pow256(0) == 1
  {
  }

  /** `value += digit * b` and `b <<= 8`, in 64 bits. */
  function AddDigit(value: u64, digit: byte, b: nat): (r: u64) {
    (value + digit * b) % TWO_64
  }

  function ShiftLeft(b: nat): (r: nat) {
    b * 256 % TWO_64
  }

  lemma MagnitudeStep(s: seq<byte>, digit: byte, b: nat)
    requires |s| < 8 && b == Pow256(|s|) % TWO_64
    ensures FromLittleEndian(s) < TWO_64
    ensures AddDigit(FromLittleEndian(s), digit, b) == FromLittleEndian(s + [digit])
    ensures ShiftLeft(b) == Pow256(|s| + 1) % TWO_64
  {
    hide FromLittleEndian, Pow256, AddDigit, ShiftLeft;
    ShiftWeight(|s|);
    MagnitudeFits(s);
    LittleEndianAppend(s, digit);
    MagnitudeFits(s + [digit]);
    AddFits(FromLittleEndian(s), digit, b, FromLittleEndian(s + [digit]));
    ShiftIs(b);
  }

  lemma AddFits(value: u64, digit: byte, b: nat, sum: u64)
    requires sum == value + digit * b
    ensures AddDigit(value, digit, b) == sum
  {
  }

  lemma ShiftIs(b: nat)
    ensures ShiftLeft(b) == b * 256 % TWO_64
  {
  }

  lemma ShiftWeight(i: nat)
    requires i < 8
    ensures Pow256(i) % TWO_64 == Pow256(i)
    ensures Pow256(i) % TWO_64 * 256 % TWO_64 == Pow256(i + 1) % TWO_64
  {
    Pow256Values();
    assert Pow256(3) == 256 * Pow256(2) && Pow256(5) == 256 * Pow256(4) && Pow256(6) == 256 * Pow256(5);
    assert Pow256(7) == 256 * Pow256(6);
  }

  lemma {:induction false} IdsPrefix(s: seq<byte>, u: seq<byte>, n: nat)
    requires |s| >= 4 * n && |u| >= 4 * n && s[..4 * n] == u[..4 * n]
    ensures Ids(s, n) == Ids(u, n)
  {
    if n > 0 {
      assert s[..4] == s[..4 * n][..4] && u[..4] == u[..4 * n][..4];
      assert s[4..][..4 * (n - 1)] == s[..4 * n][4..] && u[4..][..4 * (n - 1)] == u[..4 * n][4..];
      IdsPrefix(s[4..], u[4..], n - 1);
    }
  }
}

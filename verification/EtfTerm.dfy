/** JSON values as `nlohmann::json` holds them, for the Erlang term codec. */
module EtfJson {
  import opened Bytes

  type u64 = x: int | 0 <= x < TWO_64

  /** `number_integer` and `number_unsigned` together: `is_number_integer()` accepts both. */
  type JsonInt = x: int | -0x8000_0000_0000_0000 <= x < TWO_64

  /** Objects are `std::map`s: their fields are listed in key order, see `KeysSorted`.
      A float is its 64-bit pattern. */
  datatype Json =
    | Null
    | Bool(b: bool)
    | Int(n: JsonInt)
    | Float(bits: u64)
    | Str(s: seq<byte>)
    | Arr(items: seq<Json>)
    | Obj(fields: seq<Field>)

  datatype Field = Field(key: seq<byte>, value: Json)

  /** `std::string::operator<`: lexicographic on unsigned bytes. */
  predicate KeyLess(a: seq<byte>, b: seq<byte>) {
    b != [] && (a == [] || a[0] < b[0] || (a[0] == b[0] && KeyLess(a[1..], b[1..])))
  }

  lemma {:induction false} KeyLessIrreflexive(a: seq<byte>)
    ensures !KeyLess(a, a)
  {
    if a != [] {
      KeyLessIrreflexive(a[1..]);
    }
  }

  lemma {:induction false} KeyLessTransitive(a: seq<byte>, b: seq<byte>, c: seq<byte>)
    requires KeyLess(a, b) && KeyLess(b, c)
    ensures KeyLess(a, c)
  {
    if a != [] && a[0] == b[0] == c[0] {
      KeyLessTransitive(a[1..], b[1..], c[1..]);
    }
  }

  lemma {:induction false} KeyLessTotal(a: seq<byte>, b: seq<byte>)
    ensures a == b || KeyLess(a, b) || KeyLess(b, a)
  {
    if a != [] && b != [] && a[0] == b[0] {
      KeyLessTotal(a[1..], b[1..]);
      assert a == [a[0]] + a[1..] && b == [b[0]] + b[1..];
    }
  }

  ghost predicate KeysSorted(fields: seq<Field>) {
    forall i, j :: 0 <= i < j < |fields| ==> KeyLess(fields[i].key, fields[j].key)
  }

  /** `std::map::emplace`: inserts in key order, and changes nothing when the key is there. */
  function Emplace(fields: seq<Field>, key: seq<byte>, value: Json): (r: seq<Field>) {
    if fields == [] || KeyLess(key, fields[0].key) then [Field(key, value)] + fields
    else if key == fields[0].key then fields
    else [fields[0]] + Emplace(fields[1..], key, value)
  }

  ghost predicate HasKey(fields: seq<Field>, key: seq<byte>) {
    exists i :: 0 <= i < |fields| && fields[i].key == key
  }

  /** What `emplace` means: the map stays sorted, keeps all it had, gains at most the new field,
      and the first value stored for a key wins. */
  lemma {:induction false} EmplaceMeaning(fields: seq<Field>, key: seq<byte>, value: Json)
    requires KeysSorted(fields)
    ensures KeysSorted(Emplace(fields, key, value))
    ensures forall f :: f in Emplace(fields, key, value) <==>
              f in fields || (f == Field(key, value) && !HasKey(fields, key))
  {
    if fields == [] {
    } else {
      var head, tail := fields[0], fields[1..];
      assert fields == [head] + tail;
      if KeyLess(key, head.key) {
        forall i | 0 <= i < |fields|
          ensures KeyLess(key, fields[i].key)
        {
          if i > 0 { KeyLessTransitive(key, head.key, fields[i].key); }
        }
        KeyLessIrreflexive(key);
      } else if key == head.key {
      } else {
        KeyLessTotal(key, head.key);
        EmplaceMeaning(tail, key, value);
        var r := Emplace(tail, key, value);
        forall i | 0 <= i < |r|
          ensures KeyLess(head.key, r[i].key)
        {
          assert r[i] in r;
        }
        assert HasKey(fields, key) ==> HasKey(tail, key);
        assert HasKey(tail, key) ==> HasKey(fields, key) by {
          if i :| 0 <= i < |tail| && tail[i].key == key { assert fields[i + 1].key == key; }
        }
      }
    }
  }

  /** A key above all present keys goes to the end. */
  lemma {:induction false} EmplaceLast(fields: seq<Field>, key: seq<byte>, value: Json)
    requires forall i :: 0 <= i < |fields| ==> KeyLess(fields[i].key, key)
    ensures Emplace(fields, key, value) == fields + [Field(key, value)]
  {
    if fields != [] {
      KeyLessIrreflexive(key);
      if KeyLess(key, fields[0].key) {
        KeyLessTransitive(fields[0].key, key, fields[0].key);
        KeyLessIrreflexive(fields[0].key);
      }
      EmplaceLast(fields[1..], key, value);
      assert fields == [fields[0]] + fields[1..];
    }
  }

  /** `std::to_string` of an unsigned integer, in ASCII digits. */
  function Digits(n: nat): (s: seq<byte>)
    ensures |s| >= 1
  {
    if n < 10 then [48 + n] else Digits(n / 10) + [48 + n % 10]
  }

  /** `std::to_string` of a signed integer. */
  function Decimal(n: int): (s: seq<byte>) {
    if n < 0 then [45] + Digits(-n) else Digits(n)
  }

  /** The number a string of ASCII digits denotes. */
  function DigitsValue(s: seq<byte>): (n: int) {
    if s == [] then 0 else DigitsValue(s[..|s| - 1]) * 10 + (s[|s| - 1] as int - 48)
  }

  /** The decimal string that stands for a number denotes that number. */
  lemma {:induction false} DigitsDenote(n: nat)
    ensures DigitsValue(Digits(n)) == n
  {
    if n >= 10 {
      DigitsDenote(n / 10);
      assert Digits(n)[..|Digits(n)| - 1] == Digits(n / 10);
    } else {
      assert Digits(n)[..0] == [];
    }
  }

  /** They are digits, and the first is 0 only for 0. */
  lemma {:induction false} DigitsPlain(n: nat)
    ensures forall i :: 0 <= i < |Digits(n)| ==> 48 <= Digits(n)[i] <= 57
    ensures Digits(n)[0] == 48 <==> n == 0
    ensures n == 0 ==> Digits(n) == [48]
  {
    if n >= 10 {
      DigitsPlain(n / 10);
    }
  }

  /** `std::to_string`: digits, behind a minus sign for a negative number. */
  lemma DecimalDenotes(n: int)
    ensures n >= 0 ==> DigitsValue(Decimal(n)) == n
    ensures n < 0 ==> Decimal(n)[0] == 45 && DigitsValue(Decimal(n)[1..]) == -n
    ensures forall i :: (if n < 0 then 1 else 0) <= i < |Decimal(n)| ==> 48 <= Decimal(n)[i] <= 57
    ensures n != 0 ==> Decimal(n)[if n < 0 then 1 else 0] != 48
    ensures n == 0 ==> Decimal(n) == [48]
  {
    hide Digits, DigitsValue;
    var m := if n < 0 then -n else n;
    DigitsDenote(m);
    DigitsPlain(m);
    if n < 0 {
      assert Decimal(n)[1..] == Digits(m);
      assert forall i :: 1 <= i < |Decimal(n)| ==> Decimal(n)[i] == Digits(m)[i - 1];
    }
  }

  lemma {:induction false} DigitsShort(n: nat, k: nat)
    requires n < Pow256(k) && k > 0
    ensures |Digits(n)| <= 3 * k
  {
    if k == 1 {
      assert Pow256(1) == 256 * Pow256(0);
    } else if n >= 1000 {
      var a, b := n / 10, n / 100;
      assert a / 10 == b && b / 10 == n / 1000;
      assert |Digits(n)| == |Digits(a)| + 1 && |Digits(a)| == |Digits(b)| + 1;
      assert |Digits(b)| == |Digits(n / 1000)| + 1;
      DigitsShort(n / 1000, k - 1);
    } else {
      assert n >= 100 ==> n / 10 >= 10 && |Digits(n / 10)| == |Digits(n / 10 / 10)| + 1;
    }
  }

  /** Every decimal string of a 64-bit value is short. */
  lemma DecimalShort(n: int)
    requires -0x8000_0000_0000_0000 <= n < TWO_64
    ensures |Decimal(n)| <= 25
  {
    Pow256Values();
    DigitsShort(if n < 0 then -n else n, 8);
  }
}

/** The bytes `etf_parser::inner_build` writes and the value `etf_parser::inner_parse` reads. */
module EtfTerm {
  import opened Bytes
  import opened EtfJson

  const FORMAT_VERSION: byte := 131

  const NEW_FLOAT: byte := 70
  const SMALL_INT: byte := 97
  const INTEGER: byte := 98
  const FLOAT: byte := 99
  const ATOM: byte := 100
  const REFERENCE: byte := 101
  const PORT: byte := 102
  const PID: byte := 103
  const SMALL_TUPLE: byte := 104
  const LARGE_TUPLE: byte := 105
  const NIL: byte := 106
  const STRING: byte := 107
  const LIST: byte := 108
  const BINARY: byte := 109
  const BIGINT_SMALL: byte := 110
  const BIGINT_LARGE: byte := 111
  const EXPORT: byte := 113
  const NEW_REFERENCE: byte := 114
  const ATOM_SMALL: byte := 115
  const MAP: byte := 116

  /** Lists and maps longer than this make `inner_build` throw. */
  const MAX_ENTRIES: nat := TWO_32 - 2

  const A_NIL: seq<byte> := [110, 105, 108]
  const A_NULL: seq<byte> := [110, 117, 108, 108]
  const A_TRUE: seq<byte> := [116, 114, 117, 101]
  const A_FALSE: seq<byte> := [102, 97, 108, 115, 101]
  const K_NODE: seq<byte> := [110, 111, 100, 101]
  const K_ID: seq<byte> := [105, 100]
  const K_CREATION: seq<byte> := [99, 114, 101, 97, 116, 105, 111, 110]
  const K_SERIAL: seq<byte> := [115, 101, 114, 105, 97, 108]
  const K_MOD: seq<byte> := [109, 111, 100]
  const K_FUN: seq<byte> := [102, 117, 110]
  const K_ARITY: seq<byte> := [97, 114, 105, 116, 121]

  /** The two floating-point library calls: `sscanf("%lf")` and the cast from `double` to
      `uint64_t`. Nothing is known about them. */
  datatype FloatLib = FloatLib(scan: seq<byte> -> Option<u64>, toU64: u64 -> u64)

  // ---------------------------------------------------------------- printing

  function Print(v: Json): (s: seq<byte>)
    ensures |s| >= 1
    decreases v
  {
    match v
    case Null => [ATOM_SMALL, 3] + A_NIL
    case Bool(b) => if b then [ATOM_SMALL, 4] + A_TRUE else [ATOM_SMALL, 5] + A_FALSE
    case Int(n) => PrintInt(ToInt64(n))
    case Float(bits) => [NEW_FLOAT] + ToBigEndian(8, bits)
    case Str(s) => PrintStr(s)
    case Arr(items) =>
      (if items == [] then [NIL] else []) + [LIST] + ToBigEndian(4, |items|) + PrintItems(items) + [NIL]
    case Obj(fields) => [MAP] + ToBigEndian(4, |fields|) + PrintFields(fields)
  }

  function PrintInt(m: int): (s: seq<byte>)
    requires m < TWO_63
    ensures |s| >= 1
  {
    if 0 <= m <= 127 then [SMALL_INT, m]
    else if m >= TWO_32 - 2 then
      PrintBigint(0, m)
    else [INTEGER] + ToBigEndian(4, m % TWO_32)
  }

  /** A sign byte and the bytes of a 64-bit magnitude, least significant first. */
  function PrintBigint(sign: byte, magnitude: u64): (s: seq<byte>)
    ensures |s| == 3 + |ToLittleEndian(magnitude)| <= 11
  {
    Pow256Values();
    LittleEndianLength(magnitude, 8);
    [BIGINT_SMALL, |ToLittleEndian(magnitude)|, sign] + ToLittleEndian(magnitude)
  }

  /** `append_long_long`. */
  function PrintLongLong(d: int): (s: seq<byte>)
    requires -0x8000_0000_0000_0000 <= d < TWO_63
  {
    if d < 0 then PrintBigint(1, -d) else PrintBigint(0, d)
  }

  function PrintStr(s: seq<byte>): (r: seq<byte>)
    ensures |r| == 5 + |s|
  {
    [BINARY] + ToBigEndian(4, |s|) + s
  }

  function PrintItems(items: seq<Json>): (s: seq<byte>)
    decreases items
  {
    if items == [] then [] else Print(items[0]) + PrintItems(items[1..])
  }

  function PrintFields(fields: seq<Field>): (s: seq<byte>)
    decreases fields
  {
    if fields == [] then []
    else PrintStr(fields[0].key) + Print(fields[0].value) + PrintFields(fields[1..])
  }

  /** Every list and map is short enough for `inner_build` not to throw. */
  predicate ContainersFit(v: Json)
    decreases v
  {
    match v
    case Arr(items) => |items| <= MAX_ENTRIES && forall i :: 0 <= i < |items| ==> ContainersFit(items[i])
    case Obj(fields) => |fields| <= MAX_ENTRIES && forall i :: 0 <= i < |fields| ==> ContainersFit(fields[i].value)
    case _ => true
  }

  /** `build`: the version byte and one term, or the exception. */
  function Build(v: Json): (r: Option<seq<byte>>) {
    if ContainersFit(v) then Some([FORMAT_VERSION] + Print(v)) else None
  }

  // ----------------------------------------------------------------- parsing

  /** One parsed value and the bytes it took. `Fail` stands for every exception. */
  datatype Parsed = Fail | Done(value: Json, used: nat)
  datatype ParsedItems = FailItems | DoneItems(items: seq<Json>, used: nat)
  datatype ParsedFields = FailFields | DoneFields(fields: seq<Field>, used: nat)

  /** One term at the front of `s`. */
  function Parse(lib: FloatLib, s: seq<byte>): (r: Parsed)
    ensures r.Done? ==> 0 < r.used <= |s|
    decreases |s|, 1
  {
    if s == [] then Fail
    else
      var tag, t := s[0], s[1..];
      var r :=
        if tag == SMALL_INT then ParseByte(t)
        else if tag == INTEGER then ParseInteger(t)
        else if tag == FLOAT then ParseFloat(lib, t)
        else if tag == NEW_FLOAT then ParseNewFloat(t)
        else if tag == ATOM then ParseAtom(t, 2)
        else if tag == ATOM_SMALL then ParseAtom(t, 1)
        else if tag == SMALL_TUPLE then ParseTuple(lib, t, 1)
        else if tag == LARGE_TUPLE then ParseTuple(lib, t, 4)
        else if tag == NIL then Done(Arr([]), 0)
        else if tag == STRING then ParseByteList(t)
        else if tag == LIST then ParseList(lib, t)
        else if tag == MAP then ParseMap(lib, t)
        else if tag == BINARY then ParseBinary(t)
        else if tag == BIGINT_SMALL then ParseBigint(t, 1)
        else if tag == BIGINT_LARGE then ParseBigint(t, 4)
        else if tag == REFERENCE then ParseReference(lib, t)
        else if tag == NEW_REFERENCE then ParseNewReference(lib, t)
        else if tag == PORT then ParsePort(lib, t)
        else if tag == PID then ParsePid(lib, t)
        else if tag == EXPORT then ParseExport(lib, t)
        else Fail;
      if r.Fail? then Fail else Done(r.value, 1 + r.used)
  }

  function ParseByte(t: seq<byte>): (r: Parsed)
    ensures r.Done? ==> r.used <= |t|
  {
    if |t| < 1 then Fail else Done(Int(t[0]), 1)
  }

  function ParseInteger(t: seq<byte>): (r: Parsed)
    ensures r.Done? ==> r.used <= |t|
  {
    if |t| < 4 then Fail else Done(Int(ToInt32(FromBigEndian(t[..4]))), 4)
  }

  /** Short input gives null without moving; so does text that is not a number, after moving. */
  function ParseFloat(lib: FloatLib, t: seq<byte>): (r: Parsed)
    ensures r.Done? ==> r.used <= |t|
  {
    if |t| < 31 then Done(Null, 0)
    else
      var f := lib.scan(t[..31]);
      Done(if f.Some? then Float(f.value) else Null, 31)
  }

  function ParseNewFloat(t: seq<byte>): (r: Parsed)
    ensures r.Done? ==> r.used <= |t|
  {
    Pow256Values();
    if |t| < 8 then Fail else Done(Float(FromBigEndian(t[..8])), 8)
  }

  function AtomValue(a: seq<byte>): (v: Json) {
    if a == A_NULL || a == A_NIL then Null
    else if a == A_TRUE then Bool(true)
    else if a == A_FALSE then Bool(false)
    else Str(a)
  }

  /** A length of `w` bytes and a name; a name cut short gives null without moving over it. */
  function ParseAtom(t: seq<byte>, w: nat): (r: Parsed)
    ensures r.Done? ==> r.used <= |t|
  {
    if |t| < w then Fail
    else
      var n := FromBigEndian(t[..w]);
      if |t| < w + n then Done(Null, w) else Done(AtomValue(t[w..w + n]), w + n)
  }

  function ParseBinary(t: seq<byte>): (r: Parsed)
    ensures r.Done? ==> r.used <= |t|
  {
    if |t| < 4 then Fail
    else
      var n := FromBigEndian(t[..4]);
      if |t| < 4 + n then Done(Null, 4) else Done(Str(t[4..4 + n]), 4 + n)
  }

  /** An Erlang string is a list of small integers. */
  function ParseByteList(t: seq<byte>): (r: Parsed)
    ensures r.Done? ==> r.used <= |t|
  {
    if |t| < 2 then Fail
    else
      var n := FromBigEndian(t[..2]);
      if |t| < 2 + n then Fail
      else Done(Arr(seq(n, i requires 0 <= i < n => Int(t[2 + i]))), 2 + n)
  }

  /** The text of a sign byte and `digits` magnitude bytes already summed to `value`. */
  function BigintText(sign: byte, digits: nat, value: u64): (s: seq<byte>) {
    if sign == 0 then Decimal(value)
    else if digits <= 4 && value < 0x8000_0000 then Decimal(-1 * value)
    else Decimal(ToInt64(-ToInt64(value)))
  }

  /** A length of `w` bytes, a sign byte and that many magnitude bytes, at most eight. */
  function ParseBigint(t: seq<byte>, w: nat): (r: Parsed)
    ensures r.Done? ==> r.used <= |t|
  {
    if |t| < w then Fail
    else
      var n := FromBigEndian(t[..w]);
      if n > 8 || |t| < w + 1 + n then Fail
      else
        var value := FromLittleEndian(t[w + 1..w + 1 + n]);
        MagnitudeFits(t[w + 1..w + 1 + n]);
        Done(Str(BigintText(t[w], n, value)), w + 1 + n)
  }

  lemma MagnitudeFits(s: seq<byte>)
    requires |s| <= 8
    ensures FromLittleEndian(s) < TWO_64
  {
    Pow256Values();
    Pow256Monotone(|s|, 8);
  }

  lemma {:induction false} Pow256Monotone(j: nat, k: nat)
    requires j <= k
    ensures Pow256(j) <= Pow256(k)
  {
    if j < k {
      Pow256Monotone(j, k - 1);
    }
  }

  function ParseItems(lib: FloatLib, s: seq<byte>, n: nat): (r: ParsedItems)
    ensures r.DoneItems? ==> r.used <= |s| && |r.items| == n
    decreases |s|, 2
  {
    if n == 0 then DoneItems([], 0)
    else
      var h := Parse(lib, s);
      if h.Fail? then FailItems
      else
        var t := ParseItems(lib, s[h.used..], n - 1);
        if t.FailItems? then FailItems else DoneItems([h.value] + t.items, h.used + t.used)
  }

  function ParseTuple(lib: FloatLib, t: seq<byte>, w: nat): (r: Parsed)
    requires w > 0
    ensures r.Done? ==> r.used <= |t|
    decreases |t|, 3
  {
    if |t| < w then Fail
    else
      var items := ParseItems(lib, t[w..], FromBigEndian(t[..w]));
      if items.FailItems? then Fail else Done(Arr(items.items), w + items.used)
  }

  /** A list whose tail is not nil is read to its end and then given up as null. */
  function ParseList(lib: FloatLib, t: seq<byte>): (r: Parsed)
    ensures r.Done? ==> r.used <= |t|
    decreases |t|, 3
  {
    if |t| < 4 then Fail
    else
      var items := ParseItems(lib, t[4..], FromBigEndian(t[..4]));
      if items.FailItems? || |t| <= 4 + items.used then Fail
      else Done(if t[4 + items.used] == NIL then Arr(items.items) else Null, 5 + items.used)
  }

  /** Map keys are strings, or numbers turned into decimal text; other keys throw. */
  function KeyText(lib: FloatLib, key: Json): (r: Option<seq<byte>>) {
    match key
    case Str(s) => Some(s)
    case Int(n) => Some(Decimal(n % TWO_64))
    case Float(bits) => Some(Decimal(lib.toU64(bits)))
    case _ => None
  }

  function ParseFields(lib: FloatLib, s: seq<byte>, n: nat, acc: seq<Field>): (r: ParsedFields)
    ensures r.DoneFields? ==> r.used <= |s|
    decreases |s|, 2
  {
    if n == 0 then DoneFields(acc, 0)
    else
      var k := Parse(lib, s);
      if k.Fail? then FailFields
      else
        var v := Parse(lib, s[k.used..]);
        if v.Fail? || KeyText(lib, k.value).None? then FailFields
        else
          var t := ParseFields(lib, s[k.used + v.used..], n - 1,
                               Emplace(acc, KeyText(lib, k.value).value, v.value));
          if t.FailFields? then FailFields else DoneFields(t.fields, k.used + v.used + t.used)
  }

  /** A map of no entries stays the null it was declared as. */
  function ParseMap(lib: FloatLib, t: seq<byte>): (r: Parsed)
    ensures r.Done? ==> r.used <= |t|
    decreases |t|, 3
  {
    if |t| < 4 then Fail
    else
      var n := FromBigEndian(t[..4]);
      var fields := ParseFields(lib, t[4..], n, []);
      if fields.FailFields? then Fail
      else Done(if n == 0 then Null else Obj(fields.fields), 4 + fields.used)
  }

  function ParseReference(lib: FloatLib, t: seq<byte>): (r: Parsed)
    ensures r.Done? ==> r.used <= |t|
    decreases |t|, 3
  {
    var node := Parse(lib, t);
    if node.Fail? || |t| < node.used + 5 then Fail
    else
      var u := t[node.used..];
      Done(Obj([Field(K_CREATION, Int(u[4])),
                Field(K_ID, Arr([Int(ToInt32(FromBigEndian(u[..4])))])),
                Field(K_NODE, node.value)]), node.used + 5)
  }

  /** `n` identifiers of four bytes each. */
  function Ids(s: seq<byte>, n: nat): (ids: seq<Json>)
    requires |s| >= 4 * n
    ensures |ids| == n
  {
    if n == 0 then [] else [Int(ToInt32(FromBigEndian(s[..4])))] + Ids(s[4..], n - 1)
  }

  function ParseNewReference(lib: FloatLib, t: seq<byte>): (r: Parsed)
    ensures r.Done? ==> r.used <= |t|
    decreases |t|, 3
  {
    if |t| < 2 then Fail
    else
      var n := FromBigEndian(t[..2]);
      var node := Parse(lib, t[2..]);
      if node.Fail? || |t| < 2 + node.used + 1 + 4 * n then Fail
      else
        var u := t[2 + node.used..];
        Done(Obj([Field(K_CREATION, Int(u[0])),
                  Field(K_ID, Arr(Ids(u[1..], n))),
                  Field(K_NODE, node.value)]), 2 + node.used + 1 + 4 * n)
  }

  lemma WordFits(s: seq<byte>)
    requires |s| == 4
    ensures FromBigEndian(s) < TWO_32
  {
    Pow256Values();
  }

  function ParsePort(lib: FloatLib, t: seq<byte>): (r: Parsed)
    ensures r.Done? ==> r.used <= |t|
    decreases |t|, 3
  {
    var node := Parse(lib, t);
    if node.Fail? || |t| < node.used + 5 then Fail
    else
      var u := t[node.used..];
      WordFits(u[..4]);
      Done(Obj([Field(K_CREATION, Int(u[4])),
                Field(K_ID, Int(FromBigEndian(u[..4]))),
                Field(K_NODE, node.value)]), node.used + 5)
  }

  function ParsePid(lib: FloatLib, t: seq<byte>): (r: Parsed)
    ensures r.Done? ==> r.used <= |t|
    decreases |t|, 3
  {
    var node := Parse(lib, t);
    if node.Fail? || |t| < node.used + 9 then Fail
    else
      var u := t[node.used..];
      WordFits(u[..4]);
      WordFits(u[4..8]);
      Done(Obj([Field(K_CREATION, Int(u[8])),
                Field(K_ID, Int(FromBigEndian(u[..4]))),
                Field(K_NODE, node.value),
                Field(K_SERIAL, Int(FromBigEndian(u[4..8])))]), node.used + 9)
  }

  function ParseExport(lib: FloatLib, t: seq<byte>): (r: Parsed)
    ensures r.Done? ==> r.used <= |t|
    decreases |t|, 3
  {
    var parts := ParseItems(lib, t, 3);
    if parts.FailItems? then Fail
    else Done(Obj([Field(K_ARITY, parts.items[2]), Field(K_FUN, parts.items[1]), Field(K_MOD, parts.items[0])]),
              parts.used)
  }

  /** `parse`: the version byte, one term, and whatever follows is ignored. */
  function ParseMessage(lib: FloatLib, s: seq<byte>): (r: Option<Json>) {
    if s == [] || s[0] != FORMAT_VERSION then None
    else
      var r := Parse(lib, s[1..]);
      if r.Fail? then None else Some(r.value)
  }

  // ------------------------------------------------------------- normal form

  /** What a value becomes on its way through the codec. */
  function Normalise(v: Json): (r: Json)
    decreases v
  {
    match v
    case Int(n) =>
      var m := ToInt64(n);
      if m >= TWO_32 - 2 then Str(Decimal(m)) else Int(ToInt32(m))
    case Arr(items) => Arr(NormaliseItems(items))
    case Obj(fields) => if fields == [] then Null else Obj(NormaliseFields(fields))
    case _ => v
  }

  function NormaliseItems(items: seq<Json>): (r: seq<Json>)
    ensures |r| == |items|
    decreases items
  {
    if items == [] then [] else [Normalise(items[0])] + NormaliseItems(items[1..])
  }

  function NormaliseFields(fields: seq<Field>): (r: seq<Field>)
    ensures |r| == |fields|
    ensures forall i :: 0 <= i < |r| ==> r[i].key == fields[i].key
    decreases fields
  {
    if fields == [] then []
    else [Field(fields[0].key, Normalise(fields[0].value))] + NormaliseFields(fields[1..])
  }
}

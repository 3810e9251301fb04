/** The promises of the term codec as a whole. */
module EtfTheorems {
  import opened Bytes
  import opened EtfJson
  import opened EtfTerm
  import opened EtfRoundTrip

  // ------------------------------------------------- what a parsed value looks like

  /** An object the parser can return: sorted keys, no string beyond the 32-bit length fields. */
  ghost predicate WellFormed(v: Json) {
    StringsFit(v) && Canonical(v)
  }

  ghost predicate WellFormedFields(fields: seq<Field>) {
    KeysSorted(fields) && forall f :: f in fields ==> |f.key| < TWO_32 && WellFormed(f.value)
  }

  /** Whatever the bytes, a value that comes back has sorted, unique keys in every object, although
      the sender chose the order and may have repeated keys. */
  lemma {:induction false} ParsedWellFormed(lib: FloatLib, s: seq<byte>)
    ensures Parse(lib, s).Done? ==> WellFormed(Parse(lib, s).value)
    decreases |s|, 1
  {
    if s != [] {
      var tag, t := s[0], s[1..];
      if tag == SMALL_TUPLE {
        TupleWellFormed(lib, t, 1);
      } else if tag == LARGE_TUPLE {
        TupleWellFormed(lib, t, 4);
      } else if tag == LIST {
        ListWellFormed(lib, t);
      } else if tag == MAP {
        MapWellFormed(lib, t);
      } else if tag == REFERENCE || tag == PORT || tag == PID {
        NodeWellFormed(lib, t);
      } else if tag == NEW_REFERENCE {
        NewReferenceWellFormed(lib, t);
      } else if tag == EXPORT {
        ExportWellFormed(lib, t);
      } else {
        LeafWellFormed(lib, s);
      }
    }
  }

  lemma {:induction false} TupleWellFormed(lib: FloatLib, t: seq<byte>, w: nat)
    requires w > 0
    ensures ParseTuple(lib, t, w).Done? ==> WellFormed(ParseTuple(lib, t, w).value)
    decreases |t|, 3
  {
    hide Parse, ParseItems;
    if |t| >= w {
      ItemsWellFormed(lib, t[w..], FromBigEndian(t[..w]));
    }
  }

  lemma {:induction false} ListWellFormed(lib: FloatLib, t: seq<byte>)
    ensures ParseList(lib, t).Done? ==> WellFormed(ParseList(lib, t).value)
    decreases |t|, 3
  {
    hide Parse, ParseItems;
    if |t| >= 4 {
      ItemsWellFormed(lib, t[4..], FromBigEndian(t[..4]));
    }
  }

  lemma {:induction false} MapWellFormed(lib: FloatLib, t: seq<byte>)
    ensures ParseMap(lib, t).Done? ==> WellFormed(ParseMap(lib, t).value)
    decreases |t|, 3
  {
    hide Parse, ParseFields;
    if |t| >= 4 {
      assert KeysSorted([]);
      FieldsWellFormed(lib, t[4..], FromBigEndian(t[..4]), []);
      if ParseMap(lib, t).Done? && ParseMap(lib, t).value.Obj? {
        ObjWellFormed(ParseMap(lib, t).value.fields);
      }
    }
  }

  /** References, ports and process identifiers: a node name and plain numbers. */
  lemma {:induction false} NodeWellFormed(lib: FloatLib, t: seq<byte>)
    ensures ParseReference(lib, t).Done? ==> WellFormed(ParseReference(lib, t).value)
    ensures ParsePort(lib, t).Done? ==> WellFormed(ParsePort(lib, t).value)
    ensures ParsePid(lib, t).Done? ==> WellFormed(ParsePid(lib, t).value)
    decreases |t|, 3
  {
    hide Parse, FromBigEndian;
    ParsedWellFormed(lib, t);
    var r, p, q := ParseReference(lib, t), ParsePort(lib, t), ParsePid(lib, t);
    if r.Done? {
      IdListWellFormed(r.value.fields[1].value);
      LabelsWellFormed(r.value.fields);
    }
    if p.Done? { LabelsWellFormed(p.value.fields); }
    if q.Done? { LabelsWellFormed(q.value.fields); }
  }

  lemma IdListWellFormed(ids: Json)
    requires ids.Arr? && forall i :: 0 <= i < |ids.items| ==> ids.items[i].Int?
    ensures WellFormed(ids)
  {
  }

  /** The labels are listed in key order. */
  lemma LabelsWellFormed(fields: seq<Field>)
    requires 3 <= |fields| <= 4
    requires fields[0].key == K_CREATION && fields[1].key == K_ID && fields[2].key == K_NODE
    requires |fields| == 4 ==> fields[3].key == K_SERIAL
    requires forall i :: 0 <= i < |fields| ==> WellFormed(fields[i].value)
    ensures WellFormed(Obj(fields))
  {
  }

  lemma {:induction false} NewReferenceWellFormed(lib: FloatLib, t: seq<byte>)
    ensures ParseNewReference(lib, t).Done? ==> WellFormed(ParseNewReference(lib, t).value)
    decreases |t|, 3
  {
    hide Parse, FromBigEndian;
    if |t| >= 2 {
      ParsedWellFormed(lib, t[2..]);
      if ParseNewReference(lib, t).Done? {
        var fields := ParseNewReference(lib, t).value.fields;
        IdsAreInts(t[2 + Parse(lib, t[2..]).used..][1..], FromBigEndian(t[..2]));
        IdListWellFormed(fields[1].value);
        LabelsWellFormed(fields);
      }
    }
  }

  lemma {:induction false} ExportWellFormed(lib: FloatLib, t: seq<byte>)
    ensures ParseExport(lib, t).Done? ==> WellFormed(ParseExport(lib, t).value)
    decreases |t|, 3
  {
    hide Parse, ParseItems;
    ItemsWellFormed(lib, t, 3);
  }

  lemma LeafWellFormed(lib: FloatLib, s: seq<byte>)
    requires s != [] && s[0] !in {SMALL_TUPLE, LARGE_TUPLE, LIST, MAP, REFERENCE, NEW_REFERENCE, PORT, PID, EXPORT}
    ensures Parse(lib, s).Done? ==> WellFormed(Parse(lib, s).value)
  {
    var tag, t := s[0], s[1..];
    Pow256Values();
    if tag == ATOM || tag == ATOM_SMALL {
      var w := if tag == ATOM then 2 else 1;
      assert |t| >= w ==> FromBigEndian(t[..w]) < Pow256(w);
    } else if tag == BINARY {
      assert |t| >= 4 ==> FromBigEndian(t[..4]) < Pow256(4);
    } else if tag == BIGINT_SMALL || tag == BIGINT_LARGE {
      BigintWellFormed(t, if tag == BIGINT_SMALL then 1 else 4);
    }
  }

  lemma BigintWellFormed(t: seq<byte>, w: nat)
    ensures ParseBigint(t, w).Done? ==> WellFormed(ParseBigint(t, w).value)
  {
    hide FromBigEndian, FromLittleEndian, Decimal;
    if ParseBigint(t, w).Fail? { return; }
    var n := FromBigEndian(t[..w]);
    MagnitudeFits(t[w + 1..w + 1 + n]);
    var value := FromLittleEndian(t[w + 1..w + 1 + n]);
    DecimalShort(value);
    DecimalShort(ToInt64(-ToInt64(value)));
    if value < 0x8000_0000 {
      DecimalShort(-1 * value as int);
    }
  }

  lemma ObjWellFormed(fields: seq<Field>)
    requires WellFormedFields(fields)
    ensures WellFormed(Obj(fields))
  {
    forall i | 0 <= i < |fields|
      ensures |fields[i].key| < TWO_32 && WellFormed(fields[i].value)
    {
      assert fields[i] in fields;
    }
  }

  lemma {:induction false} IdsAreInts(s: seq<byte>, n: nat)
    requires |s| >= 4 * n
    ensures forall i :: 0 <= i < n ==> Ids(s, n)[i].Int?
  {
    if n > 0 {
      IdsAreInts(s[4..], n - 1);
    }
  }

  lemma {:induction false} ItemsWellFormed(lib: FloatLib, s: seq<byte>, n: nat)
    ensures ParseItems(lib, s, n).DoneItems? ==>
              forall i :: 0 <= i < n ==> WellFormed(ParseItems(lib, s, n).items[i])
    decreases |s|, 2
  {
    hide Parse, WellFormed;
    if n > 0 && Parse(lib, s).Done? {
      ParsedWellFormed(lib, s);
      ItemsWellFormed(lib, s[Parse(lib, s).used..], n - 1);
    }
  }

  lemma {:induction false} FieldsWellFormed(lib: FloatLib, s: seq<byte>, n: nat, acc: seq<Field>)
    requires WellFormedFields(acc)
    ensures ParseFields(lib, s, n, acc).DoneFields? ==> WellFormedFields(ParseFields(lib, s, n, acc).fields)
    decreases |s|, 2
  {
    hide Parse, WellFormed, Emplace, Decimal;
    if n > 0 && Parse(lib, s).Done? {
      var k := Parse(lib, s);
      var v := Parse(lib, s[k.used..]);
      if v.Done? && KeyText(lib, k.value).Some? {
        var key := KeyText(lib, k.value).value;
        ParsedWellFormed(lib, s);
        ParsedWellFormed(lib, s[k.used..]);
        KeyTextFits(lib, k.value);
        EmplaceMeaning(acc, key, v.value);
        FieldsWellFormed(lib, s[k.used + v.used..], n - 1, Emplace(acc, key, v.value));
      }
    }
  }

  lemma KeyTextFits(lib: FloatLib, key: Json)
    requires WellFormed(key) && KeyText(lib, key).Some?
    ensures |KeyText(lib, key).value| < TWO_32
  {
    if key.Int? {
      DecimalShort(key.n % TWO_64);
    } else if key.Float? {
      DecimalShort(lib.toU64(key.bits));
    }
  }

  // --------------------------------------------------------------- the normal form

  ghost predicate SameShape(v: Json, w: Json) {
    && (Canonical(v) ==> Canonical(w))
    && (ContainersFit(v) ==> ContainersFit(w))
    && (NoEmptyArrays(v) <==> NoEmptyArrays(w))
    && (StringsFit(v) <==> StringsFit(w))
  }

  /** Normalising keeps key order, list shapes and string lengths: only the scalars and `{}` change. */
  lemma {:induction false} NormaliseKeeps(v: Json)
    ensures SameShape(v, Normalise(v))
    decreases v
  {
    match v
    case Arr(items) =>
      ItemsKeep(items);
      ArrKeeps(items, NormaliseItems(items));
    case Obj(fields) =>
      FieldsKeep(fields);
      ObjKeeps(fields, NormaliseFields(fields));
    case Int(n) => DecimalShort(ToInt64(n));
    case _ =>
  }

  lemma {:induction false} ItemsKeep(items: seq<Json>)
    ensures forall i :: 0 <= i < |items| ==> SameShape(items[i], NormaliseItems(items)[i])
    decreases items
  {
    hide SameShape, Normalise;
    if items != [] {
      NormaliseKeeps(items[0]);
      ItemsKeep(items[1..]);
    }
  }

  lemma {:induction false} FieldsKeep(fields: seq<Field>)
    ensures forall i :: 0 <= i < |fields| ==> SameShape(fields[i].value, NormaliseFields(fields)[i].value)
    decreases fields
  {
    hide SameShape, Normalise;
    if fields != [] {
      NormaliseKeeps(fields[0].value);
      FieldsKeep(fields[1..]);
    }
  }

  lemma ArrKeeps(a: seq<Json>, b: seq<Json>)
    requires |a| == |b| && forall i :: 0 <= i < |a| ==> SameShape(a[i], b[i])
    ensures SameShape(Arr(a), Arr(b))
  {
  }

  lemma ObjKeeps(a: seq<Field>, b: seq<Field>)
    requires |a| == |b| && forall i :: 0 <= i < |a| ==> a[i].key == b[i].key && SameShape(a[i].value, b[i].value)
    ensures SameShape(Obj(a), if a == [] then Null else Obj(b))
  {
  }

  /** A second trip changes nothing more. */
  lemma {:induction false} NormaliseIdempotent(v: Json)
    ensures Normalise(Normalise(v)) == Normalise(v)
    decreases v
  {
    hide Decimal, NormaliseItems, NormaliseFields;
    match v
    case Arr(items) => ItemsIdempotent(items);
    case Obj(fields) =>
      FieldsIdempotent(fields);
      assert fields != [] ==> |NormaliseFields(fields)| > 0;
    case Int(n) =>
      if ToInt64(n) < TWO_32 - 2 {
        SmallIntsAreFixed(ToInt32(ToInt64(n)));
      }
    case _ =>
  }

  lemma SmallIntsAreFixed(m: int)
    requires -0x8000_0000 <= m < 0x8000_0000
    ensures ToInt64(m) == m && ToInt32(m) == m
  {
  }

  lemma {:induction false} ItemsIdempotent(items: seq<Json>)
    ensures NormaliseItems(NormaliseItems(items)) == NormaliseItems(items)
    decreases items
  {
    hide Normalise;
    if items != [] {
      NormaliseIdempotent(items[0]);
      ItemsIdempotent(items[1..]);
      assert NormaliseItems(items)[1..] == NormaliseItems(items[1..]);
    }
  }

  lemma {:induction false} FieldsIdempotent(fields: seq<Field>)
    ensures NormaliseFields(NormaliseFields(fields)) == NormaliseFields(fields)
    decreases fields
  {
    hide Normalise;
    if fields != [] {
      NormaliseIdempotent(fields[0].value);
      FieldsIdempotent(fields[1..]);
      assert NormaliseFields(fields)[1..] == NormaliseFields(fields[1..]);
    }
  }

  // -------------------------------------------------------------------- theorems

  /** Exactly which values survive `parse(build(v))`. */
  lemma RoundTripExactly(lib: FloatLib, v: Json)
    requires Canonical(v) && ContainersFit(v)
    ensures ParseMessage(lib, Build(v).value) == Some(Normalise(v)) <==> StringsFit(v) && Residue(v).Some?
  {
    hide Parse, Print, Normalise, Residue;
    var s := Build(v).value;
    assert s[1..] == Print(v) + [];
    if StringsFit(v) {
      TermLeaves(lib, v, []);
    } else {
      NormaliseKeeps(v);
      ParsedWellFormed(lib, s[1..]);
    }
  }

  /** A term reads back in full, value and extent, whatever follows it, exactly when it holds no
      empty array and no over-long string. */
  lemma SelfDelimiting(lib: FloatLib, v: Json, rest: seq<byte>)
    requires Canonical(v) && ContainersFit(v)
    ensures Parse(lib, Print(v) + rest) == Done(Normalise(v), |Print(v)|) <==> StringsFit(v) && NoEmptyArrays(v)
  {
    hide Parse, Print, Normalise, Residue, TokenBytes;
    NoResidue(v);
    if StringsFit(v) {
      TermLeaves(lib, v, rest);
    } else {
      NormaliseKeeps(v);
      ParsedWellFormed(lib, Print(v) + rest);
    }
  }

  /** Normalising keeps the surplus terms. */
  lemma {:induction false} ResidueKept(v: Json)
    ensures Residue(Normalise(v)) == Residue(v)
    decreases v
  {
    hide Decimal, NormaliseItems, NormaliseFields;
    match v
    case Arr(items) =>
      ItemsResidueKept(items, []);
      assert |NormaliseItems(items)| == |items|;
    case Obj(fields) =>
      FieldsResidueKept(fields);
      assert |NormaliseFields(fields)| == |fields|;
    case _ =>
  }

  lemma {:induction false} ItemsResidueKept(items: seq<Json>, pending: seq<Token>)
    ensures ItemsResidue(NormaliseItems(items), pending) == ItemsResidue(items, pending)
    decreases items
  {
    hide Normalise, Residue;
    if items != [] {
      ResidueKept(items[0]);
      EmptyKept(items[0]);
      assert NormaliseItems(items)[1..] == NormaliseItems(items[1..]);
      if pending == [] {
        if Residue(items[0]).Some? {
          ItemsResidueKept(items[1..], Residue(items[0]).value);
        }
      } else {
        ItemsResidueKept(items[1..], pending[1..] + [NilToken, ListToken]);
      }
    }
  }

  lemma EmptyKept(v: Json)
    ensures Normalise(v) == Arr([]) <==> v == Arr([])
  {
    if v.Arr? {
      assert |NormaliseItems(v.items)| == |v.items|;
    }
  }

  lemma {:induction false} FieldsResidueKept(fields: seq<Field>)
    ensures FieldsResidue(NormaliseFields(fields)) == FieldsResidue(fields)
    decreases fields
  {
    hide Normalise, Residue;
    if fields != [] {
      ResidueKept(fields[0].value);
      FieldsResidueKept(fields[1..]);
      assert NormaliseFields(fields)[1..] == NormaliseFields(fields[1..]);
    }
  }

  /** Build, parse, build, parse: the second trip is the identity on exactly the values that survive
      the first. */
  lemma SecondTripIsIdentity(lib: FloatLib, v: Json)
    requires Canonical(v) && ContainersFit(v)
    ensures Build(Normalise(v)).Some?
    ensures ParseMessage(lib, Build(Normalise(v)).value) == Some(Normalise(v))
            <==> ParseMessage(lib, Build(v).value) == Some(Normalise(v))
  {
    hide Parse, Print, Normalise, Residue;
    NormaliseKeeps(v);
    NormaliseIdempotent(v);
    ResidueKept(v);
    RoundTripExactly(lib, v);
    RoundTripExactly(lib, Normalise(v));
  }

  /** Integers above the 32-bit range come back as text that still denotes them. */
  lemma BigIntegersKeepTheirValue(n: JsonInt)
    requires TWO_32 - 2 <= n < TWO_63
    ensures Normalise(Int(n)).Str? && DigitsValue(Normalise(Int(n)).s) == n
  {
    hide Digits, DigitsValue;
    assert ToInt64(n) == n;
    DigitsDenote(n);
  }

  /** The smallest failure, and a value of empty arrays that survives because the left-over terms
      happen to pair up. */
  lemma EmptyArrayExamples(lib: FloatLib)
    ensures ParseMessage(lib, Build(Arr([Arr([])])).value) != Some(Arr([Arr([])]))
    ensures ParseMessage(lib, Build(Arr([Arr([]), Arr([])])).value) == Some(Arr([Arr([]), Arr([])]))
  {
    hide Parse, Print;
    var e := Arr([]);
    ResidueExamples(e);
    RoundTripExactly(lib, Arr([e]));
    RoundTripExactly(lib, Arr([e, e]));
    assert NormaliseItems([e]) == [e] && NormaliseItems([e, e]) == [e, e];
  }

  lemma ResidueExamples(e: Json)
    requires e == Arr([])
    ensures Residue(Arr([e])).None? && Residue(Arr([e, e])).Some?
  {
    assert ItemsResidue([e], []) == ItemsResidue([], [ListToken]) by { assert [e][1..] == []; }
    assert [e, e][1..] == [e];
    assert ItemsResidue([e, e], []) == ItemsResidue([e], [ListToken]);
    assert [ListToken][1..] + [NilToken, ListToken] == [NilToken, ListToken];
    assert ItemsResidue([e], [ListToken]) == ItemsResidue([], [NilToken, ListToken]) by { assert [e][1..] == []; }
  }
}

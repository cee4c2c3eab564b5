/** What becomes of a value that is not whole: it is written, and either refused when it is
  * read or read as something that is refused when it is written again. */
module AbiLost {
  import opened AbiCodec
  import opened AbiWhole
  import opened AbiRoundTrip

  ghost predicate Lost(c: Codec, abi: Abi, t: Type, s: Bytes, ext: bool, n: nat, r: nat) {
    var d := Decode(c, abi, t, s, r);
    d.Some? ==> !d.value.0.Null? && Encode(c, abi, t, d.value.0, ext, n).None?
  }

  ghost predicate FieldsLost(c: Codec, abi: Abi, fs: seq<Field>, s: Bytes, k0: map<string, Value>, ext: bool, n: nat, r: nat) {
    var d := DecodeFields(c, abi, fs, s, k0, r);
    d.Some? ==> EncodeFields(c, abi, fs, d.value.0, ext, false, n).None?
  }

  ghost predicate StructLost(c: Codec, abi: Abi, x: string, s: Bytes, k0: map<string, Value>, ext: bool, n: nat, r: nat)
    requires x in abi.structs
  {
    var d := DecodeStruct(c, abi, x, s, k0, r);
    d.Some? ==> EncodeStruct(c, abi, x, Obj(d.value.0), ext, n).None?
  }

  // ------------------------------------------------------------- streams that have ended

  /** A stream that has ended satisfies exactly the fields that are all extensions. */
  lemma {:induction false} EndedStreamIff(c: Codec, abi: Abi, fs: seq<Field>, m: map<string, Value>, r: nat)
    ensures DecodeFields(c, abi, fs, [], m, r).Some? <==> AllExtensions(fs)
    decreases |fs|
  {
    if fs != [] && fs[0].extension {
      EndedStreamIff(c, abi, fs[1..], m, r);
      forall i | 0 < i < |fs| ensures fs[i] == fs[1..][i - 1] {
      }
    }
  }

  lemma {:induction false} NoFields(c: Codec, abi: Abi, fs: seq<Field>, m: map<string, Value>, r: nat)
    ensures DecodeFields(c, abi, fs, [], m, r).None? || DecodeFields(c, abi, fs, [], m, r).value == (m, [])
    decreases |fs|
  {
    if fs != [] {
      NoFields(c, abi, fs[1..], m, r);
    }
  }

  lemma {:induction false} NoEntries(c: Codec, abi: Abi, x: string, m: map<string, Value>, r: nat)
    ensures DecodeStruct(c, abi, x, [], m, r).None? || DecodeStruct(c, abi, x, [], m, r).value == (m, [])
    decreases r
  {
    if x in abi.structs && r > 0 {
      NoFields(c, abi, abi.structs[x].fields, m, r - 1);
      if abi.structs[x].base.Some? {
        NoEntries(c, abi, BaseOf(abi, x), m, r - 1);
      }
    }
  }

  // -------------------------------------------------------------- structs without bytes

  /** A struct that was written as nothing is refused, whatever comes after it. */
  lemma {:induction false} BlankRefused(c: Codec, abi: Abi, xs: set<string>, t: Type, v: Value, ext: bool, n: nat, r: nat, rest: Bytes)
    requires WellNamed(abi, xs) && NameOf(t) in xs && Blank(abi, t, v, n) && Encode(c, abi, t, v, ext, n).Some? && (!ext || rest == [])
    ensures Decode(c, abi, t, rest, r).None?
    decreases n, 0
  {
    if r > 0 {
      ResolveIn(abi, xs, t);
      BlankReads(c, abi, xs, Resolve(abi, t).name, v, ext, n - 1, r - 1, map[], rest);
    }
  }

  lemma {:induction false} BlankReads(c: Codec, abi: Abi, xs: set<string>, x: string, v: Value, ext: bool, n: nat, r: nat,
                                      k0: map<string, Value>, rest: Bytes)
    requires WellNamed(abi, xs) && x in xs && MetAsStruct(abi, x) && BlankStruct(abi, x, v, n)
    requires EncodeStruct(c, abi, x, v, ext, n).Some? && (!ext || rest == [])
    ensures DecodeStruct(c, abi, x, rest, k0, r).None? || DecodeStruct(c, abi, x, rest, k0, r).value == (k0, rest)
    decreases n, 2
  {
    if rest == [] {
      NoEntries(c, abi, x, k0, r);
    } else if r > 0 {
      StructIn(abi, xs, x);
      BlankFieldsRead(c, abi, xs, x, v, n, r - 1, k0, rest);
      if abi.structs[x].base.Some? {
        DerivedParts(c, abi, xs, x, v, ext, n);
        BlankBase(abi, xs, x, v, n);
        BlankReads(c, abi, xs, BaseOf(abi, x), v, false, n - 1, r - 1, k0, rest);
      }
    }
  }

  lemma BlankBase(abi: Abi, xs: set<string>, x: string, v: Value, n: nat)
    requires WellNamed(abi, xs) && x in xs && MetAsStruct(abi, x) && BlankStruct(abi, x, v, n) && abi.structs[x].base.Some? && n > 0
    ensures BaseOf(abi, x) in abi.structs && BlankStruct(abi, BaseOf(abi, x), v, n - 1)
  {
    StructIn(abi, xs, x);
    assert Resolve(abi, Named(BaseOf(abi, x))) == Named(BaseOf(abi, x));
  }

  lemma {:induction false} BlankFieldsRead(c: Codec, abi: Abi, xs: set<string>, x: string, v: Value, n: nat, r: nat,
                                           k0: map<string, Value>, rest: Bytes)
    requires WellNamed(abi, xs) && x in xs && MetAsStruct(abi, x) && BlankStruct(abi, x, v, n)
    requires EncodeStruct(c, abi, x, v, false, n).Some? && rest != []
    ensures var fs := abi.structs[x].fields; DecodeFields(c, abi, fs, rest, k0, r).None? || fs == []
    decreases n, 1
  {
    var fs := abi.structs[x].fields;
    StructIn(abi, xs, x);
    if fs != [] {
      var first := if v.Obj? then v.fields[fs[0].name] else v.items[0];
      BlankRefused(c, abi, xs, fs[0].typ, first, false, n, r, rest);
    }
  }

  // ----------------------------------------------------------------------- lost values

  /** A value that is not whole does not come back. */
  lemma {:induction false} ValueLost(c: Codec, abi: Abi, xs: set<string>, t: Type, v: Value, ext: bool, n: nat, r: nat, rest: Bytes)
    requires Lawful(c) && WellNamed(abi, xs) && NameOf(t) in xs && !Whole(abi, t, v, ext, n, r)
    requires Encode(c, abi, t, v, ext, n).Some? && (!ext || rest == [])
    ensures Lost(c, abi, t, Encode(c, abi, t, v, ext, n).value + rest, ext, n, r)
    decreases n, 1, 0
  {
    if r > 0 {
      ResolveIn(abi, xs, t);
      match Resolve(abi, t) {
        case ArrayOf(e) => ArrayLost(c, abi, xs, t, e, v, ext, n, r, rest);
        case OptionalOf(e) => OptionalLost(c, abi, xs, t, e, v, ext, n, r, rest);
        case Named(x) =>
          if x in abi.variants {
            VariantLost(c, abi, xs, t, x, v, ext, n, r, rest);
          } else {
            ObjectLost(c, abi, xs, t, x, v, ext, n, r, rest);
          }
      }
    }
  }

  lemma {:induction false} ArrayLost(c: Codec, abi: Abi, xs: set<string>, t: Type, e: Type, v: Value, ext: bool, n: nat, r: nat, rest: Bytes)
    requires Lawful(c) && WellNamed(abi, xs) && NameOf(e) in xs && r > 0 && !Whole(abi, t, v, ext, n, r) && Encode(c, abi, t, v, ext, n).Some?
    requires Resolve(abi, t) == ArrayOf(e) && BuiltIn(abi, ArrayOf(e)).None?
    ensures Lost(c, abi, t, Encode(c, abi, t, v, ext, n).value + rest, ext, n, r)
    decreases n, 0, 0
  {
    var body := EncodeAll(c, abi, e, v.items, n - 1).value;
    AllLost(c, abi, xs, e, v.items, n - 1, r - 1, rest);
    assert CountsBack(c, |v.items|, body + rest);
    assert c.packCount(|v.items|) + (body + rest) == (c.packCount(|v.items|) + body) + rest;
  }

  lemma {:induction false} AllLost(c: Codec, abi: Abi, xs: set<string>, t: Type, vs: seq<Value>, n: nat, r: nat, rest: Bytes)
    requires Lawful(c) && WellNamed(abi, xs) && NameOf(t) in xs && !WholeAll(abi, t, vs, n, r) && EncodeAll(c, abi, t, vs, n).Some?
    ensures var d := DecodeAll(c, abi, t, EncodeAll(c, abi, t, vs, n).value + rest, |vs|, r);
            d.Some? ==> EncodeAll(c, abi, t, d.value.0, n).None?
    decreases n, 2, |vs|
  {
    var e, b := Encode(c, abi, t, vs[0], false, n).value, EncodeAll(c, abi, t, vs[1..], n).value;
    assert e + (b + rest) == (e + b) + rest;
    if Whole(abi, t, vs[0], false, n, r) {
      var w := ValueBack(c, abi, xs, t, vs[0], false, n, r, b + rest);
      AllLost(c, abi, xs, t, vs[1..], n, r, rest);
    } else {
      ValueLost(c, abi, xs, t, vs[0], false, n, r, b + rest);
    }
  }

  lemma {:induction false} OptionalLost(c: Codec, abi: Abi, xs: set<string>, t: Type, e: Type, v: Value, ext: bool, n: nat, r: nat, rest: Bytes)
    requires Lawful(c) && WellNamed(abi, xs) && NameOf(e) in xs && r > 0 && !Whole(abi, t, v, ext, n, r)
    requires Encode(c, abi, t, v, ext, n).Some? && (!ext || rest == [])
    requires Resolve(abi, t) == OptionalOf(e) && BuiltIn(abi, OptionalOf(e)).None?
    ensures Lost(c, abi, t, Encode(c, abi, t, v, ext, n).value + rest, ext, n, r)
    decreases n, 0, 0
  {
    var body := Encode(c, abi, e, v, ext, n - 1).value;
    ValueLost(c, abi, xs, e, v, ext, n - 1, r - 1, rest);
    assert (([1] + body) + rest)[1..] == body + rest;
  }

  lemma {:induction false} VariantLost(c: Codec, abi: Abi, xs: set<string>, t: Type, x: string, v: Value, ext: bool, n: nat, r: nat, rest: Bytes)
    requires Lawful(c) && WellNamed(abi, xs) && x in xs && r > 0 && !Whole(abi, t, v, ext, n, r)
    requires Encode(c, abi, t, v, ext, n).Some? && (!ext || rest == [])
    requires Resolve(abi, t) == Named(x) && BuiltIn(abi, Named(x)).None? && x in abi.variants
    ensures Lost(c, abi, t, Encode(c, abi, t, v, ext, n).value + rest, ext, n, r)
    decreases n, 0, 0
  {
    var alts := abi.variants[x];
    var i := TagIndex(alts, v.items[0].s);
    VariantIn(abi, xs, x, i);
    var body := Encode(c, abi, alts[i].typ, v.items[1], ext, n - 1).value;
    ValueLost(c, abi, xs, alts[i].typ, v.items[1], ext, n - 1, r - 1, rest);
    VariantUnread(c, abi, t, x, i, body, ext, n, r, rest);
  }

  lemma VariantUnread(c: Codec, abi: Abi, t: Type, x: string, i: nat, body: Bytes, ext: bool, n: nat, r: nat, rest: Bytes)
    requires Lawful(c) && n > 0 && r > 0 && Resolve(abi, t) == Named(x) && BuiltIn(abi, Named(x)).None? && x in abi.variants
    requires i < |abi.variants[x]| && TagIndex(abi.variants[x], abi.variants[x][i].tag) == i
    requires Lost(c, abi, abi.variants[x][i].typ, body + rest, ext, n - 1, r - 1)
    ensures Lost(c, abi, t, (c.packCount(i) + body) + rest, ext, n, r)
  {
    assert CountsBack(c, i, body + rest);
    assert c.packCount(i) + (body + rest) == (c.packCount(i) + body) + rest;
  }

  lemma {:induction false} ObjectLost(c: Codec, abi: Abi, xs: set<string>, t: Type, x: string, v: Value, ext: bool, n: nat, r: nat, rest: Bytes)
    requires Lawful(c) && WellNamed(abi, xs) && NameOf(t) in xs && x in xs && r > 0 && !Whole(abi, t, v, ext, n, r)
    requires Encode(c, abi, t, v, ext, n).Some? && (!ext || rest == [])
    requires Resolve(abi, t) == Named(x) && BuiltIn(abi, Named(x)).None? && x !in abi.variants
    ensures Lost(c, abi, t, Encode(c, abi, t, v, ext, n).value + rest, ext, n, r)
    decreases n, 0, 0
  {
    if BlankStruct(abi, x, v, n - 1) {
      BlankIff(c, abi, xs, t, v, ext, n);
      BlankRefused(c, abi, xs, t, v, ext, n, r, rest);
      assert [] + rest == rest;
    } else {
      StructUnread(c, abi, xs, x, v, ext, n - 1, r - 1, map[], rest);
    }
  }

  // ---------------------------------------------------------------------- lost structs

  lemma {:induction false} StructUnread(c: Codec, abi: Abi, xs: set<string>, x: string, v: Value, ext: bool, n: nat, r: nat,
                                        k0: map<string, Value>, rest: Bytes)
    requires Lawful(c) && WellNamed(abi, xs) && x in xs && MetAsStruct(abi, x) && !WholeStruct(abi, x, v, ext, n, r)
    requires EncodeStruct(c, abi, x, v, ext, n).Some? && (!ext || rest == []) && k0.Keys !! FieldNames(abi, x, n)
    ensures StructLost(c, abi, x, EncodeStruct(c, abi, x, v, ext, n).value + rest, k0, ext, n, r)
    decreases n, 5, 0
  {
    StructIn(abi, xs, x);
    var fs := abi.structs[x].fields;
    if r > 0 && abi.structs[x].base.Some? {
      DerivedParts(c, abi, xs, x, v, ext, n);
      var bb, bf := EncodeStruct(c, abi, BaseOf(abi, x), v, false, n - 1).value, EncodeFields(c, abi, fs, v.fields, ext, false, n).value;
      DerivedUnread(c, abi, xs, x, v, bb, bf, ext, n, r, k0, rest);
      assert (bb + bf) + rest == bb + (bf + rest);
    } else if r > 0 && v.Obj? {
      FlatObjectLost(c, abi, xs, x, fs, v.fields, EncodeFields(c, abi, fs, v.fields, ext, false, n).value, ext, n, r, k0, rest);
    } else if r > 0 {
      FlatArrayLost(c, abi, xs, x, fs, v.items, EncodePositions(c, abi, fs, v.items, ext, n).value, ext, n, r, k0, rest);
    }
  }

  lemma {:induction false} FlatObjectLost(c: Codec, abi: Abi, xs: set<string>, x: string, fs: seq<Field>, m: map<string, Value>, b: Bytes,
                                          ext: bool, n: nat, r: nat, k0: map<string, Value>, rest: Bytes)
    requires Lawful(c) && WellNamed(abi, xs) && x in abi.structs && fs == abi.structs[x].fields && abi.structs[x].base.None? && r > 0
    requires TypesIn(xs, fs) && Distinct(fs) && k0.Keys !! OwnNames(fs) && !WholeFields(abi, fs, m, ext, n, r - 1)
    requires EncodeFields(c, abi, fs, m, ext, false, n) == Some(b) && (!ext || rest == [])
    ensures StructLost(c, abi, x, b + rest, k0, ext, n, r)
    decreases n, 4, 0
  {
    FieldsUnread(c, abi, xs, fs, m, ext, n, r - 1, k0, rest);
    FlatUnread(c, abi, x, b + rest, k0, ext, n, r);
  }

  lemma {:induction false} FlatArrayLost(c: Codec, abi: Abi, xs: set<string>, x: string, fs: seq<Field>, vs: seq<Value>, b: Bytes,
                                          ext: bool, n: nat, r: nat, k0: map<string, Value>, rest: Bytes)
    requires Lawful(c) && WellNamed(abi, xs) && x in abi.structs && fs == abi.structs[x].fields && abi.structs[x].base.None? && r > 0
    requires TypesIn(xs, fs) && Distinct(fs) && k0.Keys !! OwnNames(fs) && !WholePositions(abi, fs, vs, ext, n, r - 1)
    requires EncodePositions(c, abi, fs, vs, ext, n) == Some(b) && (!ext || rest == [])
    ensures StructLost(c, abi, x, b + rest, k0, ext, n, r)
    decreases n, 4, 0
  {
    PositionsUnread(c, abi, xs, fs, vs, ext, n, r - 1, k0, rest);
    FlatUnread(c, abi, x, b + rest, k0, ext, n, r);
  }

  lemma FlatUnread(c: Codec, abi: Abi, x: string, s: Bytes, k0: map<string, Value>, ext: bool, n: nat, r: nat)
    requires x in abi.structs && abi.structs[x].base.None? && r > 0 && FieldsLost(c, abi, abi.structs[x].fields, s, k0, ext, n, r - 1)
    ensures StructLost(c, abi, x, s, k0, ext, n, r)
  {
  }

  lemma {:induction false} DerivedUnread(c: Codec, abi: Abi, xs: set<string>, x: string, v: Value, bb: Bytes, bf: Bytes, ext: bool, n: nat, r: nat,
                                         k0: map<string, Value>, rest: Bytes)
    requires Lawful(c) && WellNamed(abi, xs) && x in xs && MetAsStruct(abi, x) && abi.structs[x].base.Some? && (!ext || rest == [])
    requires v.Obj? && n > 0 && r > 0 && BaseOf(abi, x) in xs && MetAsStruct(abi, BaseOf(abi, x))
    requires EncodeStruct(c, abi, BaseOf(abi, x), v, false, n - 1) == Some(bb)
    requires EncodeFields(c, abi, abi.structs[x].fields, v.fields, ext, false, n) == Some(bf)
    requires !WholeStruct(abi, BaseOf(abi, x), v, false, n - 1, r - 1) || !WholeFields(abi, abi.structs[x].fields, v.fields, ext, n, r - 1)
    requires k0.Keys !! FieldNames(abi, x, n)
    ensures StructLost(c, abi, x, bb + (bf + rest), k0, ext, n, r)
    decreases n, 4, 0
  {
    var own, inherited := NamesSplit(abi, xs, x, n, k0);
    if WholeStruct(abi, BaseOf(abi, x), v, false, n - 1, r - 1) {
      OwnLater(c, abi, xs, x, v, bb, bf, ext, n, r, k0, rest, own, inherited);
    } else {
      BaseFirst(c, abi, xs, x, v, bb, bf + rest, ext, n, r, k0);
    }
  }

  lemma NamesSplit(abi: Abi, xs: set<string>, x: string, n: nat, k0: map<string, Value>) returns (own: set<string>, inherited: set<string>)
    requires WellNamed(abi, xs) && x in xs && MetAsStruct(abi, x) && abi.structs[x].base.Some? && n > 0 && k0.Keys !! FieldNames(abi, x, n)
    ensures own == OwnNames(abi.structs[x].fields) && inherited == FieldNames(abi, BaseOf(abi, x), n - 1)
    ensures own !! inherited && k0.Keys !! own && k0.Keys !! inherited
  {
    NamesApart(abi, xs, x, n);
    own, inherited := OwnNames(abi.structs[x].fields), FieldNames(abi, BaseOf(abi, x), n - 1);
  }

  lemma {:induction false} OwnLater(c: Codec, abi: Abi, xs: set<string>, x: string, v: Value, bb: Bytes, bf: Bytes, ext: bool, n: nat, r: nat,
                                    k0: map<string, Value>, rest: Bytes, own: set<string>, inherited: set<string>)
    requires Lawful(c) && WellNamed(abi, xs) && x in xs && MetAsStruct(abi, x) && abi.structs[x].base.Some? && (!ext || rest == [])
    requires v.Obj? && n > 0 && r > 0 && BaseOf(abi, x) in xs && MetAsStruct(abi, BaseOf(abi, x))
    requires own == OwnNames(abi.structs[x].fields) && inherited == FieldNames(abi, BaseOf(abi, x), n - 1)
    requires own !! inherited && k0.Keys !! own && k0.Keys !! inherited
    requires EncodeStruct(c, abi, BaseOf(abi, x), v, false, n - 1) == Some(bb) && WholeStruct(abi, BaseOf(abi, x), v, false, n - 1, r - 1)
    requires EncodeFields(c, abi, abi.structs[x].fields, v.fields, ext, false, n) == Some(bf) && !WholeFields(abi, abi.structs[x].fields, v.fields, ext, n, r - 1)
    ensures StructLost(c, abi, x, bb + (bf + rest), k0, ext, n, r)
    decreases n, 3, |abi.structs[x].fields| + 1
  {
    StructIn(abi, xs, x);
    var k1 := BaseRead(c, abi, xs, BaseOf(abi, x), v, bb, n - 1, r - 1, k0, bf + rest, own, inherited);
    FieldsUnread(c, abi, xs, abi.structs[x].fields, v.fields, ext, n, r - 1, k1, rest);
    OwnUnread(c, abi, xs, x, bb + (bf + rest), bf + rest, k0, k1, ext, n, r);
  }

  lemma BaseRead(c: Codec, abi: Abi, xs: set<string>, x: string, v: Value, bb: Bytes, n: nat, r: nat,
                 k0: map<string, Value>, rest: Bytes, own: set<string>, inherited: set<string>) returns (k1: map<string, Value>)
    requires Lawful(c) && WellNamed(abi, xs) && x in xs && MetAsStruct(abi, x) && inherited == FieldNames(abi, x, n)
    requires own !! inherited && k0.Keys !! own && k0.Keys !! inherited
    requires EncodeStruct(c, abi, x, v, false, n) == Some(bb) && WholeStruct(abi, x, v, false, n, r)
    ensures DecodeStruct(c, abi, x, bb + rest, k0, r) == Some((k1, rest)) && k1.Keys !! own
  {
    var kb := StructBack(c, abi, xs, x, v, false, n, r, k0, rest);
    k1 := k0 + kb;
  }

  lemma {:induction false} BaseFirst(c: Codec, abi: Abi, xs: set<string>, x: string, v: Value, bb: Bytes, rest: Bytes, ext: bool, n: nat, r: nat,
                                     k0: map<string, Value>)
    requires Lawful(c) && WellNamed(abi, xs) && x in xs && MetAsStruct(abi, x) && abi.structs[x].base.Some?
    requires n > 0 && r > 0 && BaseOf(abi, x) in xs && MetAsStruct(abi, BaseOf(abi, x)) && k0.Keys !! FieldNames(abi, BaseOf(abi, x), n - 1)
    requires EncodeStruct(c, abi, BaseOf(abi, x), v, false, n - 1) == Some(bb) && !WholeStruct(abi, BaseOf(abi, x), v, false, n - 1, r - 1)
    ensures StructLost(c, abi, x, bb + rest, k0, ext, n, r)
    decreases n, 3, 0
  {
    StructUnread(c, abi, xs, BaseOf(abi, x), v, false, n - 1, r - 1, k0, rest);
    BaseUnread(c, abi, xs, x, bb + rest, k0, ext, n, r);
  }

  lemma OwnUnread(c: Codec, abi: Abi, xs: set<string>, x: string, s: Bytes, s1: Bytes, k0: map<string, Value>, k1: map<string, Value>, ext: bool, n: nat, r: nat)
    requires WellNamed(abi, xs) && x in xs && MetAsStruct(abi, x) && abi.structs[x].base.Some? && n > 0 && r > 0
    requires DecodeStruct(c, abi, BaseOf(abi, x), s, k0, r - 1) == Some((k1, s1))
    requires FieldsLost(c, abi, abi.structs[x].fields, s1, k1, ext, n, r - 1)
    ensures StructLost(c, abi, x, s, k0, ext, n, r)
  {
    StructIn(abi, xs, x);
    DecodeParts(c, abi, xs, x, s, k0, r);
  }

  /** Reading a derived struct: the base, then its own fields. */
  lemma DecodeParts(c: Codec, abi: Abi, xs: set<string>, x: string, s: Bytes, k0: map<string, Value>, r: nat)
    requires WellNamed(abi, xs) && x in xs && MetAsStruct(abi, x) && abi.structs[x].base.Some? && r > 0
    ensures var o := DecodeStruct(c, abi, BaseOf(abi, x), s, k0, r - 1);
            DecodeStruct(c, abi, x, s, k0, r) == if o.None? then None else DecodeFields(c, abi, abi.structs[x].fields, o.value.1, o.value.0, r - 1)
  {
    StructIn(abi, xs, x);
  }

  /** Own fields cannot mend what the base has lost. */
  lemma BaseUnread(c: Codec, abi: Abi, xs: set<string>, x: string, s: Bytes, k0: map<string, Value>, ext: bool, n: nat, r: nat)
    requires WellNamed(abi, xs) && x in xs && MetAsStruct(abi, x) && abi.structs[x].base.Some? && n > 0 && r > 0
    requires BaseOf(abi, x) in xs && MetAsStruct(abi, BaseOf(abi, x)) && StructLost(c, abi, BaseOf(abi, x), s, k0, false, n - 1, r - 1)
    ensures StructLost(c, abi, x, s, k0, ext, n, r)
  {
    DecodeParts(c, abi, xs, x, s, k0, r);
    if DecodeStruct(c, abi, x, s, k0, r).Some? {
      var o, k := DecodeStruct(c, abi, BaseOf(abi, x), s, k0, r - 1).value, DecodeStruct(c, abi, x, s, k0, r).value.0;
      OthersKept(c, abi, abi.structs[x].fields, o.1, o.0, r - 1);
      BaseStays(c, abi, xs, x, o.0, k, n);
      ObjectParts(c, abi, xs, x, k, ext, n);
    }
  }

  lemma BaseStays(c: Codec, abi: Abi, xs: set<string>, x: string, m: map<string, Value>, k: map<string, Value>, n: nat)
    requires WellNamed(abi, xs) && x in xs && MetAsStruct(abi, x) && abi.structs[x].base.Some? && n > 0
    requires BaseOf(abi, x) in xs && MetAsStruct(abi, BaseOf(abi, x)) && SameOutside(m, k, OwnNames(abi.structs[x].fields))
    ensures EncodeStruct(c, abi, BaseOf(abi, x), Obj(k), false, n - 1) == EncodeStruct(c, abi, BaseOf(abi, x), Obj(m), false, n - 1)
  {
    NamesApart(abi, xs, x, n);
    var inherited := FieldNames(abi, BaseOf(abi, x), n - 1);
    AgreeOutside(m, k, OwnNames(abi.structs[x].fields), inherited);
    StructAgree(c, abi, xs, BaseOf(abi, x), k, m, inherited, false, n - 1);
  }

  /** Only entries under the given names differ. */
  ghost predicate SameOutside(m: map<string, Value>, k: map<string, Value>, own: set<string>) {
    forall y {:trigger y in own} :: y !in own ==> (y in k <==> y in m) && (y in m ==> k[y] == m[y])
  }

  lemma AgreeOutside(m: map<string, Value>, k: map<string, Value>, own: set<string>, names: set<string>)
    requires SameOutside(m, k, own) && own !! names
    ensures Agree(k, m, names)
  {
    assert forall y :: y in names ==> y !in own;
  }

  lemma {:induction false} OthersKept(c: Codec, abi: Abi, fs: seq<Field>, s: Bytes, m: map<string, Value>, r: nat)
    requires DecodeFields(c, abi, fs, s, m, r).Some?
    ensures SameOutside(m, DecodeFields(c, abi, fs, s, m, r).value.0, OwnNames(fs))
    decreases |fs|
  {
    if fs != [] {
      assert fs[0].name in OwnNames(fs) && OwnNames(fs[1..]) <= OwnNames(fs);
      if s == [] {
        OthersKept(c, abi, fs[1..], s, m, r);
      } else {
        var w := Decode(c, abi, fs[0].typ, s, r).value;
        OthersKept(c, abi, fs[1..], w.1, m[fs[0].name := w.0], r);
      }
      assert forall y :: y !in OwnNames(fs) ==> y !in OwnNames(fs[1..]) && y != fs[0].name;
    }
  }

  // ---------------------------------------------------------------------- lost fields

  lemma {:induction false} FieldsUnread(c: Codec, abi: Abi, xs: set<string>, fs: seq<Field>, m: map<string, Value>, ext: bool, n: nat, r: nat,
                                        k0: map<string, Value>, rest: Bytes)
    requires Lawful(c) && WellNamed(abi, xs) && TypesIn(xs, fs) && Distinct(fs) && k0.Keys !! OwnNames(fs) && !WholeFields(abi, fs, m, ext, n, r)
    requires EncodeFields(c, abi, fs, m, ext, false, n).Some? && (!ext || rest == [])
    ensures FieldsLost(c, abi, fs, EncodeFields(c, abi, fs, m, ext, false, n).value + rest, k0, ext, n, r)
    decreases n, 3, |fs|
  {
    BlankFieldsIff(c, abi, xs, fs, m, ext, false, n);
    if ext && BlankFields(abi, fs, m, n) {
      EndedLost(c, abi, fs, EncodeFields(c, abi, fs, m, ext, false, n).value + rest, k0, ext, n, r);
    } else {
      FieldParts(c, abi, xs, fs, m, ext, n);
      var e, b := Encode(c, abi, fs[0].typ, m[fs[0].name], ext && |fs| == 1, n).value, EncodeFields(c, abi, fs[1..], m, ext, false, n).value;
      if Whole(abi, fs[0].typ, m[fs[0].name], ext && |fs| == 1, n, r) {
        var w := FrontBack(c, abi, xs, fs, m[fs[0].name], e, ext, n, r, k0, b, rest);
        FieldsUnread(c, abi, xs, fs[1..], m, ext, n, r, k0[fs[0].name := w], rest);
        LaterLost(c, abi, fs, e, b, ext, n, r, k0, rest, w);
      } else {
        FrontUnread(c, abi, xs, fs, m[fs[0].name], e, ext, n, r, k0, b, rest);
      }
    }
  }

  lemma EndedLost(c: Codec, abi: Abi, fs: seq<Field>, s: Bytes, k0: map<string, Value>, ext: bool, n: nat, r: nat)
    requires !AllExtensions(fs) && s == []
    ensures FieldsLost(c, abi, fs, s, k0, ext, n, r)
  {
    EndedStreamIff(c, abi, fs, k0, r);
  }

  /** The first field is read, and what follows is lost. */
  lemma LaterLost(c: Codec, abi: Abi, fs: seq<Field>, e: Bytes, b: Bytes, ext: bool, n: nat, r: nat, k0: map<string, Value>, rest: Bytes, w: Value)
    requires fs != [] && Distinct(fs) && e != [] && Back(c, abi, fs[0].typ, e, ext && |fs| == 1, n, r, b + rest, w)
    requires FieldsLost(c, abi, fs[1..], b + rest, k0[fs[0].name := w], ext, n, r)
    ensures FieldsLost(c, abi, fs, (e + b) + rest, k0, ext, n, r)
  {
    DecodeFront(c, abi, fs, e, b, r, k0, rest, w);
    NotAgain(fs);
    if DecodeFields(c, abi, fs[1..], b + rest, k0[fs[0].name := w], r).Some? {
      OthersKept(c, abi, fs[1..], b + rest, k0[fs[0].name := w], r);
    }
  }

  /** The first field is lost, and with it all of them. */
  lemma {:induction false} FrontUnread(c: Codec, abi: Abi, xs: set<string>, fs: seq<Field>, v: Value, e: Bytes, ext: bool, n: nat, r: nat,
                                       k0: map<string, Value>, b: Bytes, rest: Bytes)
    requires Lawful(c) && WellNamed(abi, xs) && fs != [] && TypesIn(xs, fs) && Distinct(fs) && k0.Keys !! OwnNames(fs)
    requires !Whole(abi, fs[0].typ, v, ext && |fs| == 1, n, r) && Encode(c, abi, fs[0].typ, v, ext && |fs| == 1, n) == Some(e)
    requires ext && |fs| == 1 ==> b + rest == []
    requires ext ==> e + b != []
    ensures FieldsLost(c, abi, fs, (e + b) + rest, k0, ext, n, r)
    decreases n, 2, 0
  {
    assert (e + b) + rest == e + (b + rest);
    NotAgain(fs);
    assert fs[0].name in OwnNames(fs);
    if (e + b) + rest == [] {
      assert |(e + b) + rest| == |e + b| + |rest|;
      NoFields(c, abi, fs[1..], k0, r);
    } else {
      ValueLost(c, abi, xs, fs[0].typ, v, ext && |fs| == 1, n, r, b + rest);
      FrontLost(c, abi, fs, e + (b + rest), ext, n, r, k0);
    }
  }

  lemma FrontLost(c: Codec, abi: Abi, fs: seq<Field>, s: Bytes, ext: bool, n: nat, r: nat, k0: map<string, Value>)
    requires fs != [] && Distinct(fs) && s != [] && Lost(c, abi, fs[0].typ, s, ext && |fs| == 1, n, r)
    ensures FieldsLost(c, abi, fs, s, k0, ext, n, r)
  {
    NotAgain(fs);
    if DecodeFields(c, abi, fs, s, k0, r).Some? {
      var w := Decode(c, abi, fs[0].typ, s, r).value;
      OthersKept(c, abi, fs[1..], w.1, k0[fs[0].name := w.0], r);
    }
  }

  lemma {:induction false} PositionsUnread(c: Codec, abi: Abi, xs: set<string>, fs: seq<Field>, vs: seq<Value>, ext: bool, n: nat, r: nat,
                                           k0: map<string, Value>, rest: Bytes)
    requires Lawful(c) && WellNamed(abi, xs) && TypesIn(xs, fs) && Distinct(fs) && k0.Keys !! OwnNames(fs) && !WholePositions(abi, fs, vs, ext, n, r)
    requires EncodePositions(c, abi, fs, vs, ext, n).Some? && (!ext || rest == [])
    ensures FieldsLost(c, abi, fs, EncodePositions(c, abi, fs, vs, ext, n).value + rest, k0, ext, n, r)
    decreases n, 3, |fs|
  {
    BlankPositionsIff(c, abi, xs, fs, vs, ext, n);
    if ext && BlankPositions(abi, fs, vs, n) {
      EndedLost(c, abi, fs, EncodePositions(c, abi, fs, vs, ext, n).value + rest, k0, ext, n, r);
    } else {
      var e, b := Encode(c, abi, fs[0].typ, vs[0], ext && |fs| == 1, n).value, EncodePositions(c, abi, fs[1..], vs[1..], ext, n).value;
      if Whole(abi, fs[0].typ, vs[0], ext && |fs| == 1, n, r) {
        var w := FrontBack(c, abi, xs, fs, vs[0], e, ext, n, r, k0, b, rest);
        PositionsUnread(c, abi, xs, fs[1..], vs[1..], ext, n, r, k0[fs[0].name := w], rest);
        LaterLost(c, abi, fs, e, b, ext, n, r, k0, rest, w);
      } else {
        FrontUnread(c, abi, xs, fs, vs[0], e, ext, n, r, k0, b, rest);
      }
    }
  }
}

/** Decoding what was encoded, and encoding that again. */
module AbiRoundTrip {
  import opened AbiCodec
  import opened AbiWhole

  // ------------------------------------------------------------ only named fields count

  predicate Agree(m: map<string, Value>, k: map<string, Value>, names: set<string>) {
    forall x {:trigger x in names} :: x in names ==> (x in m <==> x in k) && (x in m ==> m[x] == k[x])
  }

  lemma {:induction false} FieldsAgree(c: Codec, abi: Abi, fs: seq<Field>, m: map<string, Value>, k: map<string, Value>,
                                       ext: bool, omitted: bool, n: nat)
    requires Agree(m, k, OwnNames(fs))
    ensures EncodeFields(c, abi, fs, m, ext, omitted, n) == EncodeFields(c, abi, fs, k, ext, omitted, n)
    decreases |fs|
  {
    if fs != [] {
      assert fs[0].name in OwnNames(fs) && OwnNames(fs[1..]) <= OwnNames(fs);
      FieldsAgree(c, abi, fs[1..], m, k, ext, false, n);
      FieldsAgree(c, abi, fs[1..], m, k, ext, true, n);
    }
  }

  lemma AgreeOwn(abi: Abi, x: string, m: map<string, Value>, k: map<string, Value>, n: nat)
    requires x in abi.structs && Agree(m, k, FieldNames(abi, x, n))
    ensures Agree(m, k, OwnNames(abi.structs[x].fields))
  {
  }

  lemma AgreeBase(abi: Abi, x: string, m: map<string, Value>, k: map<string, Value>, n: nat) returns (names: set<string>)
    requires x in abi.structs && Agree(m, k, FieldNames(abi, x, n)) && abi.structs[x].base.Some? && n > 0
    ensures names == FieldNames(abi, BaseOf(abi, x), n - 1) && Agree(m, k, names)
  {
    names := FieldNames(abi, BaseOf(abi, x), n - 1);
  }

  /** The bytes of an object: the base's, then those of its own fields. */
  lemma ObjectParts(c: Codec, abi: Abi, xs: set<string>, x: string, m: map<string, Value>, ext: bool, n: nat)
    requires WellNamed(abi, xs) && x in xs && MetAsStruct(abi, x)
    ensures abi.structs[x].base.Some? ==> BaseOf(abi, x) in xs && MetAsStruct(abi, BaseOf(abi, x))
    ensures var own := EncodeFields(c, abi, abi.structs[x].fields, m, ext, false, n);
            EncodeStruct(c, abi, x, Obj(m), ext, n) ==
              if abi.structs[x].base.None? then own
              else if n == 0 then None
              else Join(EncodeStruct(c, abi, BaseOf(abi, x), Obj(m), false, n - 1), own)
  {
    StructIn(abi, xs, x);
    if abi.structs[x].base.Some? {
      EncodePlain(c, abi, Named(BaseOf(abi, x)), Obj(m), false, n);
    }
  }

  /** Only the entries under a struct's own and inherited names count. */
  lemma {:induction false} StructAgree(c: Codec, abi: Abi, xs: set<string>, x: string, m: map<string, Value>, k: map<string, Value>,
                                       names: set<string>, ext: bool, n: nat)
    requires WellNamed(abi, xs) && x in xs && MetAsStruct(abi, x) && names == FieldNames(abi, x, n) && Agree(m, k, names)
    ensures EncodeStruct(c, abi, x, Obj(m), ext, n) == EncodeStruct(c, abi, x, Obj(k), ext, n)
    decreases n
  {
    AgreeOwn(abi, x, m, k, n);
    var base: Option<Bytes> := None;
    if abi.structs[x].base.Some? && n > 0 {
      StructIn(abi, xs, x);
      var inherited := AgreeBase(abi, x, m, k, n);
      StructAgree(c, abi, xs, BaseOf(abi, x), m, k, inherited, false, n - 1);
      base := EncodeStruct(c, abi, BaseOf(abi, x), Obj(k), false, n - 1);
    }
    SameParts(c, abi, xs, x, m, k, base, ext, n);
  }

  lemma SameParts(c: Codec, abi: Abi, xs: set<string>, x: string, m: map<string, Value>, k: map<string, Value>, base: Option<Bytes>, ext: bool, n: nat)
    requires WellNamed(abi, xs) && x in xs && MetAsStruct(abi, x) && Agree(m, k, OwnNames(abi.structs[x].fields))
    requires abi.structs[x].base.Some? && n > 0 ==>
               BaseOf(abi, x) in abi.structs &&
               EncodeStruct(c, abi, BaseOf(abi, x), Obj(m), false, n - 1) == base == EncodeStruct(c, abi, BaseOf(abi, x), Obj(k), false, n - 1)
    ensures EncodeStruct(c, abi, x, Obj(m), ext, n) == EncodeStruct(c, abi, x, Obj(k), ext, n)
  {
    FieldsAgree(c, abi, abi.structs[x].fields, m, k, ext, false, n);
    ObjectParts(c, abi, xs, x, m, ext, n);
    ObjectParts(c, abi, xs, x, k, ext, n);
  }

  // ------------------------------------------------------------------ one struct's fields

  lemma {:induction false} SkipExtensions(c: Codec, abi: Abi, fs: seq<Field>, k: map<string, Value>, n: nat, r: nat, omitted: bool)
    requires AllExtensions(fs)
    ensures DecodeFields(c, abi, fs, [], k, r) == Some((k, []))
    ensures EncodeFields(c, abi, fs, map[], true, omitted, n) == Some([])
    decreases |fs|
  {
    if fs != [] {
      SkipExtensions(c, abi, fs[1..], k, n, r, true);
    }
  }

  /** What a round trip of some fields gives: the decoded entries, which encode to the
    * same bytes. */
  ghost predicate FieldsBack(c: Codec, abi: Abi, fs: seq<Field>, b: Bytes, ext: bool, n: nat, r: nat,
                             k0: map<string, Value>, rest: Bytes, k1: map<string, Value>) {
    && DecodeFields(c, abi, fs, b + rest, k0, r) == Some((k0 + k1, rest))
    && k1.Keys <= OwnNames(fs)
    && EncodeFields(c, abi, fs, k1, ext, false, n) == Some(b)
    && (b == [] <==> k1 == map[])
  }

  /** One present field in front of the others. */
  lemma FieldInFront(c: Codec, abi: Abi, fs: seq<Field>, e: Bytes, b: Bytes, ext: bool, n: nat, r: nat,
                     k0: map<string, Value>, rest: Bytes, w: Value, k2: map<string, Value>)
    requires fs != [] && Distinct(fs) && fs[0].name !in k0 && e != []
    requires Back(c, abi, fs[0].typ, e, ext && |fs| == 1, n, r, b + rest, w)
    requires FieldsBack(c, abi, fs[1..], b, ext, n, r, k0[fs[0].name := w], rest, k2)
    ensures FieldsBack(c, abi, fs, e + b, ext, n, r, k0, rest, k2[fs[0].name := w])
  {
    var x := fs[0].name;
    NotAgain(fs);
    MapFront(k0, k2, x, w);
    DecodeFront(c, abi, fs, e, b, r, k0, rest, w);
    EncodeFront(c, abi, fs, e, b, ext, n, w, k2);
    assert x in OwnNames(fs) && OwnNames(fs[1..]) <= OwnNames(fs);
    assert x in k2[x := w];
  }

  lemma MapFront(k0: map<string, Value>, k2: map<string, Value>, x: string, w: Value)
    requires x !in k2
    ensures k0[x := w] + k2 == k0 + k2[x := w]
  {
  }

  lemma DecodeFront(c: Codec, abi: Abi, fs: seq<Field>, e: Bytes, b: Bytes, r: nat, k0: map<string, Value>, rest: Bytes, w: Value)
    requires fs != [] && e != [] && Decode(c, abi, fs[0].typ, e + (b + rest), r) == Some((w, b + rest))
    ensures DecodeFields(c, abi, fs, (e + b) + rest, k0, r) == DecodeFields(c, abi, fs[1..], b + rest, k0[fs[0].name := w], r)
  {
    assert (e + b) + rest == e + (b + rest);
  }

  lemma EncodeFront(c: Codec, abi: Abi, fs: seq<Field>, e: Bytes, b: Bytes, ext: bool, n: nat, w: Value, k2: map<string, Value>)
    requires fs != [] && Encode(c, abi, fs[0].typ, w, ext && |fs| == 1, n) == Some(e)
    requires EncodeFields(c, abi, fs[1..], k2, ext, false, n) == Some(b) && fs[0].name !in OwnNames(fs[1..])
    ensures EncodeFields(c, abi, fs, k2[fs[0].name := w], ext, false, n) == Some(e + b)
  {
    FieldsAgree(c, abi, fs[1..], k2[fs[0].name := w], k2, ext, false, n);
  }

  lemma NotAgain(fs: seq<Field>)
    requires fs != [] && Distinct(fs)
    ensures fs[0].name !in OwnNames(fs[1..]) && Distinct(fs[1..])
  {
    forall i | 0 <= i < |fs| - 1 ensures fs[1..][i].name != fs[0].name {
      assert fs[1..][i] == fs[i + 1];
    }
  }

  // ---------------------------------------------------------------------- the round trip

  ghost predicate Back(c: Codec, abi: Abi, t: Type, b: Bytes, ext: bool, n: nat, r: nat, rest: Bytes, w: Value) {
    Decode(c, abi, t, b + rest, r) == Some((w, rest)) && Encode(c, abi, t, w, ext, n) == Some(b)
  }

  /** A whole value that was accepted decodes, from the front of any stream it may stand
    * in, to one that encodes to the same bytes. */
  lemma {:induction false} ValueBack(c: Codec, abi: Abi, xs: set<string>, t: Type, v: Value, ext: bool, n: nat, r: nat, rest: Bytes) returns (w: Value)
    requires Lawful(c) && WellNamed(abi, xs) && NameOf(t) in xs && Whole(abi, t, v, ext, n, r)
    requires Encode(c, abi, t, v, ext, n).Some? && (!ext || rest == [])
    ensures Back(c, abi, t, Encode(c, abi, t, v, ext, n).value, ext, n, r, rest, w) && (!v.Null? ==> !w.Null?)
    decreases n, 1, 0
  {
    var u := Resolve(abi, t);
    ResolveIn(abi, xs, t);
    if BuiltIn(abi, u).Some? {
      var x, sh := BuiltIn(abi, u).value.0, BuiltIn(abi, u).value.1;
      assert PacksBack(c, x, sh, v, rest);
      w := c.unpack(x, sh, c.pack(x, sh, v).value + rest).value.0;
    } else {
      match u {
        case ArrayOf(e) => w := ArrayCase(c, abi, xs, t, e, v, ext, n, r, rest);
        case OptionalOf(e) => w := OptionalCase(c, abi, xs, t, e, v, ext, n, r, rest);
        case Named(x) =>
          if x in abi.variants {
            w := VariantCase(c, abi, xs, t, x, v, ext, n, r, rest);
          } else {
            w := StructCase(c, abi, xs, t, x, v, ext, n, r, rest);
          }
      }
    }
  }

  lemma {:induction false} ArrayCase(c: Codec, abi: Abi, xs: set<string>, t: Type, e: Type, v: Value, ext: bool, n: nat, r: nat, rest: Bytes)
    returns (w: Value)
    requires Lawful(c) && WellNamed(abi, xs) && NameOf(e) in xs && Whole(abi, t, v, ext, n, r) && Encode(c, abi, t, v, ext, n).Some?
    requires Resolve(abi, t) == ArrayOf(e) && BuiltIn(abi, ArrayOf(e)).None?
    ensures Back(c, abi, t, Encode(c, abi, t, v, ext, n).value, ext, n, r, rest, w) && w.Arr?
    decreases n, 0, 0
  {
    var body := EncodeAll(c, abi, e, v.items, n - 1).value;
    var ws := AllBack(c, abi, xs, e, v.items, n - 1, r - 1, rest);
    w := Arr(ws);
    ArrayBack(c, abi, t, e, ws, body, ext, n, r, rest);
  }

  lemma {:induction false} OptionalCase(c: Codec, abi: Abi, xs: set<string>, t: Type, e: Type, v: Value, ext: bool, n: nat, r: nat, rest: Bytes)
    returns (w: Value)
    requires Lawful(c) && WellNamed(abi, xs) && NameOf(e) in xs && Whole(abi, t, v, ext, n, r)
    requires Encode(c, abi, t, v, ext, n).Some? && (!ext || rest == [])
    requires Resolve(abi, t) == OptionalOf(e) && BuiltIn(abi, OptionalOf(e)).None?
    ensures Back(c, abi, t, Encode(c, abi, t, v, ext, n).value, ext, n, r, rest, w) && (!v.Null? ==> !w.Null?)
    decreases n, 0, 0
  {
    if v.Null? {
      w := Null;
      assert ([0] + rest)[1..] == rest;
    } else {
      var body := Encode(c, abi, e, v, ext, n - 1).value;
      w := ValueBack(c, abi, xs, e, v, ext, n - 1, r - 1, rest);
      PresentBack(c, abi, t, e, w, body, ext, n, r, rest);
    }
  }

  lemma {:induction false} VariantCase(c: Codec, abi: Abi, xs: set<string>, t: Type, x: string, v: Value, ext: bool, n: nat, r: nat, rest: Bytes)
    returns (w: Value)
    requires Lawful(c) && WellNamed(abi, xs) && x in xs && Whole(abi, t, v, ext, n, r)
    requires Encode(c, abi, t, v, ext, n).Some? && (!ext || rest == [])
    requires Resolve(abi, t) == Named(x) && BuiltIn(abi, Named(x)).None? && x in abi.variants
    ensures Back(c, abi, t, Encode(c, abi, t, v, ext, n).value, ext, n, r, rest, w) && w.Arr?
    decreases n, 0, 0
  {
    var alts := abi.variants[x];
    var i := TagIndex(alts, v.items[0].s);
    VariantIn(abi, xs, x, i);
    var body := Encode(c, abi, alts[i].typ, v.items[1], ext, n - 1).value;
    var u := ValueBack(c, abi, xs, alts[i].typ, v.items[1], ext, n - 1, r - 1, rest);
    w := Arr([Text(alts[i].tag), u]);
    VariantBack(c, abi, t, x, i, u, body, ext, n, r, rest);
  }

  lemma {:induction false} StructCase(c: Codec, abi: Abi, xs: set<string>, t: Type, x: string, v: Value, ext: bool, n: nat, r: nat, rest: Bytes)
    returns (w: Value)
    requires Lawful(c) && WellNamed(abi, xs) && x in xs && Whole(abi, t, v, ext, n, r)
    requires Encode(c, abi, t, v, ext, n).Some? && (!ext || rest == [])
    requires Resolve(abi, t) == Named(x) && BuiltIn(abi, Named(x)).None? && x !in abi.variants
    ensures Back(c, abi, t, Encode(c, abi, t, v, ext, n).value, ext, n, r, rest, w) && w.Obj?
    decreases n, 0, 0
  {
    BlankStructIff(c, abi, xs, x, v, ext, n - 1);
    NeedsScopes(abi, x, v, ext, n - 1, r - 1);
    var k := StructBack(c, abi, xs, x, v, ext, n - 1, r - 1, map[], rest);
    w := Obj(k);
    ObjectBack(c, abi, t, x, k, EncodeStruct(c, abi, x, v, ext, n - 1).value, ext, n, r, rest);
  }

  lemma ArrayBack(c: Codec, abi: Abi, t: Type, e: Type, ws: seq<Value>, body: Bytes, ext: bool, n: nat, r: nat, rest: Bytes)
    requires Lawful(c) && n > 0 && r > 0 && Resolve(abi, t) == ArrayOf(e) && BuiltIn(abi, ArrayOf(e)).None?
    requires EncodeAll(c, abi, e, ws, n - 1) == Some(body) && DecodeAll(c, abi, e, body + rest, |ws|, r - 1) == Some((ws, rest))
    ensures Back(c, abi, t, c.packCount(|ws|) + body, ext, n, r, rest, Arr(ws))
  {
    assert CountsBack(c, |ws|, body + rest);
    assert c.packCount(|ws|) + (body + rest) == (c.packCount(|ws|) + body) + rest;
  }

  lemma PresentBack(c: Codec, abi: Abi, t: Type, e: Type, w: Value, body: Bytes, ext: bool, n: nat, r: nat, rest: Bytes)
    requires n > 0 && r > 0 && Resolve(abi, t) == OptionalOf(e) && BuiltIn(abi, OptionalOf(e)).None?
    requires Back(c, abi, e, body, ext, n - 1, r - 1, rest, w) && !w.Null?
    ensures Back(c, abi, t, [1] + body, ext, n, r, rest, w)
  {
    assert (([1] + body) + rest)[1..] == body + rest;
  }

  lemma VariantBack(c: Codec, abi: Abi, t: Type, x: string, i: nat, u: Value, body: Bytes, ext: bool, n: nat, r: nat, rest: Bytes)
    requires Lawful(c) && n > 0 && r > 0 && Resolve(abi, t) == Named(x) && BuiltIn(abi, Named(x)).None? && x in abi.variants
    requires i < |abi.variants[x]| && TagIndex(abi.variants[x], abi.variants[x][i].tag) == i
    requires Back(c, abi, abi.variants[x][i].typ, body, ext, n - 1, r - 1, rest, u)
    ensures Back(c, abi, t, c.packCount(i) + body, ext, n, r, rest, Arr([Text(abi.variants[x][i].tag), u]))
  {
    assert CountsBack(c, i, body + rest);
    assert c.packCount(i) + (body + rest) == (c.packCount(i) + body) + rest;
  }

  lemma ObjectBack(c: Codec, abi: Abi, t: Type, x: string, k: map<string, Value>, b: Bytes, ext: bool, n: nat, r: nat, rest: Bytes)
    requires n > 0 && r > 0 && Resolve(abi, t) == Named(x) && BuiltIn(abi, Named(x)).None? && MetAsStruct(abi, x) && b != []
    requires StructReads(c, abi, x, b, ext, n - 1, r - 1, map[], rest, k)
    ensures Back(c, abi, t, b, ext, n, r, rest, Obj(k))
  {
    assert map[] + k == k;
  }

  lemma {:induction false} AllBack(c: Codec, abi: Abi, xs: set<string>, t: Type, vs: seq<Value>, n: nat, r: nat, rest: Bytes) returns (ws: seq<Value>)
    requires Lawful(c) && WellNamed(abi, xs) && NameOf(t) in xs && WholeAll(abi, t, vs, n, r) && EncodeAll(c, abi, t, vs, n).Some?
    ensures |ws| == |vs| && EncodeAll(c, abi, t, ws, n) == EncodeAll(c, abi, t, vs, n)
    ensures DecodeAll(c, abi, t, EncodeAll(c, abi, t, vs, n).value + rest, |vs|, r) == Some((ws, rest))
    decreases n, 2, |vs|
  {
    if vs == [] {
      ws := [];
      assert [] + rest == rest;
    } else {
      var e, b := Encode(c, abi, t, vs[0], false, n).value, EncodeAll(c, abi, t, vs[1..], n).value;
      var w := ValueBack(c, abi, xs, t, vs[0], false, n, r, b + rest);
      var us := AllBack(c, abi, xs, t, vs[1..], n, r, rest);
      ws := [w] + us;
      assert ws[1..] == us;
      assert e + (b + rest) == (e + b) + rest;
    }
  }

  ghost predicate StructReads(c: Codec, abi: Abi, x: string, b: Bytes, ext: bool, n: nat, r: nat,
                              k0: map<string, Value>, rest: Bytes, k1: map<string, Value>)
    requires x in abi.structs
  {
    && DecodeStruct(c, abi, x, b + rest, k0, r) == Some((k0 + k1, rest))
    && k1.Keys <= FieldNames(abi, x, n)
    && EncodeStruct(c, abi, x, Obj(k1), ext, n) == Some(b)
    && (b == [] <==> k1 == map[])
  }

  /** A struct with all its bases. */
  lemma {:induction false} StructBack(c: Codec, abi: Abi, xs: set<string>, x: string, v: Value, ext: bool, n: nat, r: nat,
                                      k0: map<string, Value>, rest: Bytes) returns (k1: map<string, Value>)
    requires Lawful(c) && WellNamed(abi, xs) && x in xs && MetAsStruct(abi, x) && WholeStruct(abi, x, v, ext, n, r)
    requires EncodeStruct(c, abi, x, v, ext, n).Some? && (!ext || rest == []) && k0.Keys !! FieldNames(abi, x, n)
    ensures StructReads(c, abi, x, EncodeStruct(c, abi, x, v, ext, n).value, ext, n, r, k0, rest, k1)
    decreases n, 5, 0
  {
    StructIn(abi, xs, x);
    if abi.structs[x].base.None? {
      k1 := FlatBack(c, abi, xs, x, v, ext, n, r, k0, rest);
    } else {
      DerivedParts(c, abi, xs, x, v, ext, n);
      var bf := EncodeFields(c, abi, abi.structs[x].fields, v.fields, ext, false, n).value;
      var bb := EncodeStruct(c, abi, BaseOf(abi, x), v, false, n - 1).value;
      k1 := DerivedBack(c, abi, xs, x, v, bb, bf, ext, n, r, k0, rest);
    }
  }

  lemma {:induction false} FlatBack(c: Codec, abi: Abi, xs: set<string>, x: string, v: Value, ext: bool, n: nat, r: nat,
                                    k0: map<string, Value>, rest: Bytes) returns (k1: map<string, Value>)
    requires Lawful(c) && WellNamed(abi, xs) && x in xs && MetAsStruct(abi, x) && WholeStruct(abi, x, v, ext, n, r)
    requires EncodeStruct(c, abi, x, v, ext, n).Some? && (!ext || rest == []) && k0.Keys !! FieldNames(abi, x, n)
    requires abi.structs[x].base.None?
    ensures StructReads(c, abi, x, EncodeStruct(c, abi, x, v, ext, n).value, ext, n, r, k0, rest, k1)
    decreases n, 4, 0
  {
    StructIn(abi, xs, x);
    var fs := abi.structs[x].fields;
    if v.Obj? {
      k1 := FlatObject(c, abi, xs, x, fs, v.fields, EncodeFields(c, abi, fs, v.fields, ext, false, n).value, ext, n, r, k0, rest);
    } else {
      k1 := FlatArray(c, abi, xs, x, fs, v.items, EncodePositions(c, abi, fs, v.items, ext, n).value, ext, n, r, k0, rest);
    }
  }

  lemma {:induction false} FlatObject(c: Codec, abi: Abi, xs: set<string>, x: string, fs: seq<Field>, m: map<string, Value>, b: Bytes,
                                      ext: bool, n: nat, r: nat, k0: map<string, Value>, rest: Bytes) returns (k1: map<string, Value>)
    requires Lawful(c) && WellNamed(abi, xs) && x in abi.structs && fs == abi.structs[x].fields && abi.structs[x].base.None? && r > 0
    requires TypesIn(xs, fs) && Distinct(fs) && k0.Keys !! OwnNames(fs) && WholeFields(abi, fs, m, ext, n, r - 1)
    requires EncodeFields(c, abi, fs, m, ext, false, n) == Some(b) && (!ext || rest == [])
    ensures StructReads(c, abi, x, b, ext, n, r, k0, rest, k1)
    decreases n, 3, 0
  {
    k1 := FieldsRoundTrip(c, abi, xs, fs, m, ext, n, r - 1, k0, rest);
    FlatReads(c, abi, x, b, ext, n, r, k0, rest, k1);
  }

  lemma {:induction false} FlatArray(c: Codec, abi: Abi, xs: set<string>, x: string, fs: seq<Field>, vs: seq<Value>, b: Bytes,
                                     ext: bool, n: nat, r: nat, k0: map<string, Value>, rest: Bytes) returns (k1: map<string, Value>)
    requires Lawful(c) && WellNamed(abi, xs) && x in abi.structs && fs == abi.structs[x].fields && abi.structs[x].base.None? && r > 0
    requires TypesIn(xs, fs) && Distinct(fs) && k0.Keys !! OwnNames(fs) && WholePositions(abi, fs, vs, ext, n, r - 1)
    requires EncodePositions(c, abi, fs, vs, ext, n) == Some(b) && (!ext || rest == [])
    ensures StructReads(c, abi, x, b, ext, n, r, k0, rest, k1)
    decreases n, 3, 0
  {
    k1 := PositionsRoundTrip(c, abi, xs, fs, vs, ext, n, r - 1, k0, rest);
    FlatReads(c, abi, x, b, ext, n, r, k0, rest, k1);
  }

  lemma FlatReads(c: Codec, abi: Abi, x: string, b: Bytes, ext: bool, n: nat, r: nat,
                  k0: map<string, Value>, rest: Bytes, k1: map<string, Value>)
    requires x in abi.structs && abi.structs[x].base.None? && r > 0
    requires FieldsBack(c, abi, abi.structs[x].fields, b, ext, n, r - 1, k0, rest, k1)
    ensures StructReads(c, abi, x, b, ext, n, r, k0, rest, k1)
  {
  }

  lemma {:induction false} DerivedBack(c: Codec, abi: Abi, xs: set<string>, x: string, v: Value, bb: Bytes, bf: Bytes, ext: bool, n: nat, r: nat,
                                       k0: map<string, Value>, rest: Bytes) returns (k1: map<string, Value>)
    requires Lawful(c) && WellNamed(abi, xs) && x in xs && MetAsStruct(abi, x) && abi.structs[x].base.Some? && (!ext || rest == [])
    requires v.Obj? && n > 0 && r > 0 && BaseOf(abi, x) in xs && MetAsStruct(abi, BaseOf(abi, x))
    requires EncodeStruct(c, abi, BaseOf(abi, x), v, false, n - 1) == Some(bb) && WholeStruct(abi, BaseOf(abi, x), v, false, n - 1, r - 1)
    requires EncodeFields(c, abi, abi.structs[x].fields, v.fields, ext, false, n) == Some(bf) && WholeFields(abi, abi.structs[x].fields, v.fields, ext, n, r - 1)
    requires k0.Keys !! FieldNames(abi, x, n)
    ensures StructReads(c, abi, x, bb + bf, ext, n, r, k0, rest, k1)
    decreases n, 3, 0
  {
    NamesApart(abi, xs, x, n);
    var own, inherited := OwnNames(abi.structs[x].fields), FieldNames(abi, BaseOf(abi, x), n - 1);
    assert k0.Keys !! own && k0.Keys !! inherited;
    var kb := StructBack(c, abi, xs, BaseOf(abi, x), v, false, n - 1, r - 1, k0, bf + rest);
    assert (k0 + kb).Keys !! own;
    var kf := FieldsRoundTrip(c, abi, xs, abi.structs[x].fields, v.fields, ext, n, r - 1, k0 + kb, rest);
    k1 := kb + kf;
    DerivedReads(c, abi, xs, x, bb, bf, ext, n, r, k0, rest, kb, kf);
  }

  /** The bytes of a derived struct: the base's, then its own. */
  lemma DerivedParts(c: Codec, abi: Abi, xs: set<string>, x: string, v: Value, ext: bool, n: nat)
    requires WellNamed(abi, xs) && x in xs && MetAsStruct(abi, x) && abi.structs[x].base.Some? && EncodeStruct(c, abi, x, v, ext, n).Some?
    ensures v.Obj? && n > 0 && BaseOf(abi, x) in xs && MetAsStruct(abi, BaseOf(abi, x))
    ensures var bb, bf := EncodeStruct(c, abi, BaseOf(abi, x), v, false, n - 1), EncodeFields(c, abi, abi.structs[x].fields, v.fields, ext, false, n);
            bb.Some? && bf.Some? && EncodeStruct(c, abi, x, v, ext, n).value == bb.value + bf.value
  {
    ObjectParts(c, abi, xs, x, v.fields, ext, n);
  }

  /** Own and inherited names of a struct. */
  lemma NamesApart(abi: Abi, xs: set<string>, x: string, n: nat)
    requires WellNamed(abi, xs) && x in xs && MetAsStruct(abi, x) && abi.structs[x].base.Some? && n > 0
    ensures BaseOf(abi, x) in xs && MetAsStruct(abi, BaseOf(abi, x)) && Resolve(abi, Named(abi.structs[x].base.value)) == Named(BaseOf(abi, x))
    ensures Distinct(abi.structs[x].fields) && TypesIn(xs, abi.structs[x].fields)
    ensures OwnNames(abi.structs[x].fields) !! FieldNames(abi, BaseOf(abi, x), n - 1)
    ensures FieldNames(abi, x, n) == OwnNames(abi.structs[x].fields) + FieldNames(abi, BaseOf(abi, x), n - 1)
  {
    StructIn(abi, xs, x);
    assert NamesOk(abi, x);
  }

  lemma DerivedReads(c: Codec, abi: Abi, xs: set<string>, x: string, bb: Bytes, bf: Bytes, ext: bool, n: nat, r: nat,
                     k0: map<string, Value>, rest: Bytes, kb: map<string, Value>, kf: map<string, Value>)
    requires WellNamed(abi, xs) && x in xs && MetAsStruct(abi, x) && abi.structs[x].base.Some? && n > 0 && r > 0
    requires BaseOf(abi, x) in xs && MetAsStruct(abi, BaseOf(abi, x))
    requires StructReads(c, abi, BaseOf(abi, x), bb, false, n - 1, r - 1, k0, bf + rest, kb)
    requires FieldsBack(c, abi, abi.structs[x].fields, bf, ext, n, r - 1, k0 + kb, rest, kf)
    ensures StructReads(c, abi, x, bb + bf, ext, n, r, k0, rest, kb + kf)
  {
    NamesApart(abi, xs, x, n);
    DerivedDecode(c, abi, x, bb, bf, r, k0, rest, kb, kf);
    DerivedEncode(c, abi, xs, x, bb, bf, ext, n, kb, kf);
    Nothing(kb, kf);
    assert |bb + bf| == |bb| + |bf|;
  }

  lemma Nothing(a: map<string, Value>, b: map<string, Value>)
    ensures a + b == map[] <==> a == map[] && b == map[]
  {
    if a + b == map[] {
      assert forall x :: x in a || x in b ==> x in a + b;
    }
  }

  lemma DerivedDecode(c: Codec, abi: Abi, x: string, bb: Bytes, bf: Bytes, r: nat,
                      k0: map<string, Value>, rest: Bytes, kb: map<string, Value>, kf: map<string, Value>)
    requires x in abi.structs && abi.structs[x].base.Some? && r > 0
    requires Resolve(abi, Named(abi.structs[x].base.value)) == Named(BaseOf(abi, x))
    requires DecodeStruct(c, abi, BaseOf(abi, x), bb + (bf + rest), k0, r - 1) == Some((k0 + kb, bf + rest))
    requires DecodeFields(c, abi, abi.structs[x].fields, bf + rest, k0 + kb, r - 1) == Some((k0 + kb + kf, rest))
    ensures DecodeStruct(c, abi, x, (bb + bf) + rest, k0, r) == Some((k0 + (kb + kf), rest))
  {
    assert (bb + bf) + rest == bb + (bf + rest);
    MapAssociates(k0, kb, kf);
  }

  lemma MapAssociates(a: map<string, Value>, b: map<string, Value>, c: map<string, Value>)
    ensures a + b + c == a + (b + c)
  {
  }

  lemma DerivedEncode(c: Codec, abi: Abi, xs: set<string>, x: string, bb: Bytes, bf: Bytes, ext: bool, n: nat,
                      kb: map<string, Value>, kf: map<string, Value>)
    requires WellNamed(abi, xs) && x in xs && MetAsStruct(abi, x) && abi.structs[x].base.Some? && n > 0
    requires BaseOf(abi, x) in xs && MetAsStruct(abi, BaseOf(abi, x))
    requires kb.Keys <= FieldNames(abi, BaseOf(abi, x), n - 1) && kf.Keys <= OwnNames(abi.structs[x].fields)
    requires EncodeStruct(c, abi, BaseOf(abi, x), Obj(kb), false, n - 1) == Some(bb)
    requires EncodeFields(c, abi, abi.structs[x].fields, kf, ext, false, n) == Some(bf)
    ensures EncodeStruct(c, abi, x, Obj(kb + kf), ext, n) == Some(bb + bf)
  {
    NamesApart(abi, xs, x, n);
    Apart(kb, kf, OwnNames(abi.structs[x].fields), FieldNames(abi, BaseOf(abi, x), n - 1));
    AgreedParts(c, abi, xs, x, kb + kf, kb, kf, ext, n);
    JoinedParts(c, abi, xs, x, kb + kf, bb, bf, ext, n);
  }

  lemma AgreedParts(c: Codec, abi: Abi, xs: set<string>, x: string, k: map<string, Value>, kb: map<string, Value>, kf: map<string, Value>, ext: bool, n: nat)
    requires WellNamed(abi, xs) && x in xs && MetAsStruct(abi, x) && abi.structs[x].base.Some? && n > 0
    requires BaseOf(abi, x) in xs && MetAsStruct(abi, BaseOf(abi, x))
    requires Agree(k, kb, FieldNames(abi, BaseOf(abi, x), n - 1)) && Agree(k, kf, OwnNames(abi.structs[x].fields))
    ensures EncodeStruct(c, abi, BaseOf(abi, x), Obj(k), false, n - 1) == EncodeStruct(c, abi, BaseOf(abi, x), Obj(kb), false, n - 1)
    ensures EncodeFields(c, abi, abi.structs[x].fields, k, ext, false, n) == EncodeFields(c, abi, abi.structs[x].fields, kf, ext, false, n)
  {
    StructAgree(c, abi, xs, BaseOf(abi, x), k, kb, FieldNames(abi, BaseOf(abi, x), n - 1), false, n - 1);
    FieldsAgree(c, abi, abi.structs[x].fields, k, kf, ext, false, n);
  }

  lemma JoinedParts(c: Codec, abi: Abi, xs: set<string>, x: string, k: map<string, Value>, bb: Bytes, bf: Bytes, ext: bool, n: nat)
    requires WellNamed(abi, xs) && x in xs && MetAsStruct(abi, x) && abi.structs[x].base.Some? && n > 0 && BaseOf(abi, x) in abi.structs
    requires EncodeStruct(c, abi, BaseOf(abi, x), Obj(k), false, n - 1) == Some(bb)
    requires EncodeFields(c, abi, abi.structs[x].fields, k, ext, false, n) == Some(bf)
    ensures EncodeStruct(c, abi, x, Obj(k), ext, n) == Some(bb + bf)
  {
    ObjectParts(c, abi, xs, x, k, ext, n);
  }

  lemma Apart(kb: map<string, Value>, kf: map<string, Value>, own: set<string>, inherited: set<string>)
    requires kb.Keys <= inherited && kf.Keys <= own && own !! inherited
    ensures Agree(kb + kf, kb, inherited) && Agree(kb + kf, kf, own)
  {
  }

  /** The bytes of fields given by name: the first field's, then the others'. */
  lemma FieldParts(c: Codec, abi: Abi, xs: set<string>, fs: seq<Field>, m: map<string, Value>, ext: bool, n: nat)
    requires Lawful(c) && WellNamed(abi, xs) && TypesIn(xs, fs) && fs != [] && EncodeFields(c, abi, fs, m, ext, false, n).Some?
    requires !(ext && BlankFields(abi, fs, m, n))
    ensures fs[0].name in m
    ensures var e, b := Encode(c, abi, fs[0].typ, m[fs[0].name], ext && |fs| == 1, n), EncodeFields(c, abi, fs[1..], m, ext, false, n);
            e.Some? && b.Some? && EncodeFields(c, abi, fs, m, ext, false, n).value == e.value + b.value
  {
    if fs[0].name !in m {
      AfterOmission(c, abi, fs[1..], m, ext, n);
      BlankFieldsIff(c, abi, xs, fs, m, ext, false, n);
    }
  }

  lemma {:induction false} AfterOmission(c: Codec, abi: Abi, fs: seq<Field>, m: map<string, Value>, ext: bool, n: nat)
    requires EncodeFields(c, abi, fs, m, ext, true, n).Some?
    ensures EncodeFields(c, abi, fs, m, ext, true, n) == Some([])
    decreases |fs|
  {
    if fs != [] {
      AfterOmission(c, abi, fs[1..], m, ext, n);
    }
  }

  lemma {:induction false} FieldsRoundTrip(c: Codec, abi: Abi, xs: set<string>, fs: seq<Field>, m: map<string, Value>, ext: bool, n: nat, r: nat,
                                           k0: map<string, Value>, rest: Bytes) returns (k1: map<string, Value>)
    requires Lawful(c) && WellNamed(abi, xs) && TypesIn(xs, fs) && Distinct(fs) && k0.Keys !! OwnNames(fs) && WholeFields(abi, fs, m, ext, n, r)
    requires EncodeFields(c, abi, fs, m, ext, false, n).Some? && (!ext || rest == [])
    ensures FieldsBack(c, abi, fs, EncodeFields(c, abi, fs, m, ext, false, n).value, ext, n, r, k0, rest, k1)
    decreases n, 2, |fs|
  {
    if fs == [] {
      k1 := map[];
      assert [] + rest == rest && k0 + map[] == k0;
    } else if ext && BlankFields(abi, fs, m, n) {
      BlankFieldsIff(c, abi, xs, fs, m, ext, false, n);
      k1 := NothingBack(c, abi, fs, n, r, k0);
    } else {
      FieldParts(c, abi, xs, fs, m, ext, n);
      var e, b := Encode(c, abi, fs[0].typ, m[fs[0].name], ext && |fs| == 1, n).value, EncodeFields(c, abi, fs[1..], m, ext, false, n).value;
      var w := FrontBack(c, abi, xs, fs, m[fs[0].name], e, ext, n, r, k0, b, rest);
      var k2 := FieldsRoundTrip(c, abi, xs, fs[1..], m, ext, n, r, k0[fs[0].name := w], rest);
      FieldInFront(c, abi, fs, e, b, ext, n, r, k0, rest, w, k2);
      k1 := k2[fs[0].name := w];
    }
  }

  lemma NothingBack(c: Codec, abi: Abi, fs: seq<Field>, n: nat, r: nat, k0: map<string, Value>) returns (k1: map<string, Value>)
    requires AllExtensions(fs)
    ensures FieldsBack(c, abi, fs, [], true, n, r, k0, [], k1)
  {
    k1 := map[];
    SkipExtensions(c, abi, fs, k0, n, r, false);
    var none: Bytes := [];
    assert none + none == none && k0 + map[] == k0;
  }

  /** The first field comes back, and the others may follow. */
  lemma {:induction false} FrontBack(c: Codec, abi: Abi, xs: set<string>, fs: seq<Field>, v: Value, e: Bytes, ext: bool, n: nat, r: nat,
                                     k0: map<string, Value>, b: Bytes, rest: Bytes) returns (w: Value)
    requires Lawful(c) && WellNamed(abi, xs) && fs != [] && TypesIn(xs, fs) && Distinct(fs) && k0.Keys !! OwnNames(fs)
    requires Whole(abi, fs[0].typ, v, ext && |fs| == 1, n, r) && Encode(c, abi, fs[0].typ, v, ext && |fs| == 1, n) == Some(e)
    requires ext && |fs| == 1 ==> b + rest == []
    ensures Back(c, abi, fs[0].typ, e, ext && |fs| == 1, n, r, b + rest, w) && e != []
    ensures fs[0].name !in k0 && k0[fs[0].name := w].Keys !! OwnNames(fs[1..]) && TypesIn(xs, fs[1..]) && Distinct(fs[1..])
    decreases n, 2, 0
  {
    BlankIff(c, abi, xs, fs[0].typ, v, ext && |fs| == 1, n);
    w := ValueBack(c, abi, xs, fs[0].typ, v, ext && |fs| == 1, n, r, b + rest);
    NotAgain(fs);
    assert fs[0].name in OwnNames(fs) && OwnNames(fs[1..]) <= OwnNames(fs);
  }

  lemma {:induction false} PositionsRoundTrip(c: Codec, abi: Abi, xs: set<string>, fs: seq<Field>, vs: seq<Value>, ext: bool, n: nat, r: nat,
                                              k0: map<string, Value>, rest: Bytes) returns (k1: map<string, Value>)
    requires Lawful(c) && WellNamed(abi, xs) && TypesIn(xs, fs) && Distinct(fs) && k0.Keys !! OwnNames(fs) && WholePositions(abi, fs, vs, ext, n, r)
    requires EncodePositions(c, abi, fs, vs, ext, n).Some? && (!ext || rest == [])
    ensures FieldsBack(c, abi, fs, EncodePositions(c, abi, fs, vs, ext, n).value, ext, n, r, k0, rest, k1)
    decreases n, 2, |fs|
  {
    if fs == [] {
      k1 := map[];
      assert [] + rest == rest && k0 + map[] == k0;
    } else if ext && BlankPositions(abi, fs, vs, n) {
      BlankPositionsIff(c, abi, xs, fs, vs, ext, n);
      k1 := NothingBack(c, abi, fs, n, r, k0);
    } else {
      var e, b := Encode(c, abi, fs[0].typ, vs[0], ext && |fs| == 1, n).value, EncodePositions(c, abi, fs[1..], vs[1..], ext, n).value;
      var w := FrontBack(c, abi, xs, fs, vs[0], e, ext, n, r, k0, b, rest);
      var k2 := PositionsRoundTrip(c, abi, xs, fs[1..], vs[1..], ext, n, r, k0[fs[0].name := w], rest);
      FieldInFront(c, abi, fs, e, b, ext, n, r, k0, rest, w, k2);
      k1 := k2[fs[0].name := w];
    }
  }
}

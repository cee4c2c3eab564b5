/** What the interface codec promises for whole messages, and where it falls short. */
module AbiResults {
  import opened AbiCodec
  import opened AbiWhole
  import opened AbiRoundTrip
  import opened AbiLost

  // ------------------------------------------------------------------- the normal form

  /** Structs are objects holding fields of their own or inherited ones, never positional
    * arrays; variants name the alternative they hold. */
  ghost predicate Normal(abi: Abi, t: Type, v: Value, n: nat)
    decreases n, 0
  {
    var r := Resolve(abi, t);
    BuiltIn(abi, r).Some? ||
    (n > 0 &&
     match r
     case ArrayOf(e) => v.Arr? && forall i :: 0 <= i < |v.items| ==> Normal(abi, e, v.items[i], n - 1)
     case OptionalOf(e) => v.Null? || Normal(abi, e, v, n - 1)
     case Named(x) =>
       if x in abi.variants then
         && v.Arr? && |v.items| == 2
         && exists i :: 0 <= i < |abi.variants[x]| && v.items[0] == Text(abi.variants[x][i].tag) && Normal(abi, abi.variants[x][i].typ, v.items[1], n - 1)
       else v.Obj? && v.fields != map[] && v.fields.Keys <= FieldNames(abi, x, n - 1) && NormalStruct(abi, x, v.fields, n - 1))
  }

  ghost predicate NormalStruct(abi: Abi, x: string, m: map<string, Value>, n: nat)
    decreases n, 2
  {
    && n > 0 && x in abi.structs
    && NormalFields(abi, abi.structs[x].fields, m, n - 1)
    && (abi.structs[x].base.Some? ==> NormalStruct(abi, BaseOf(abi, x), m, n - 1))
  }

  ghost predicate NormalFields(abi: Abi, fs: seq<Field>, m: map<string, Value>, n: nat)
    decreases n, 1
  {
    forall i :: 0 <= i < |fs| && fs[i].name in m ==> Normal(abi, fs[i].typ, m[fs[i].name], n)
  }

  /** Only the entries under a struct's names count. */
  lemma {:induction false} NormalAgree(abi: Abi, x: string, m: map<string, Value>, k: map<string, Value>, n: nat)
    requires NormalStruct(abi, x, m, n) && Agree(m, k, FieldNames(abi, x, n))
    ensures NormalStruct(abi, x, k, n)
    decreases n
  {
    AgreeOwn(abi, x, m, k, n);
    forall i | 0 <= i < |abi.structs[x].fields| ensures abi.structs[x].fields[i].name in OwnNames(abi.structs[x].fields) {
      assert abi.structs[x].fields[i] in abi.structs[x].fields;
    }
    if abi.structs[x].base.Some? {
      var names := AgreeBase(abi, x, m, k, n);
      NormalAgree(abi, BaseOf(abi, x), m, k, n - 1);
    }
  }

  /** Entries were added under the given names; the others are as before. */
  predicate Grown(m: map<string, Value>, k: map<string, Value>, names: set<string>) {
    m.Keys <= k.Keys <= m.Keys + names && forall y :: y in m ==> k[y] == m[y]
  }

  lemma GrownTwice(m: map<string, Value>, o: map<string, Value>, k: map<string, Value>, own: set<string>, inherited: set<string>)
    requires Grown(m, o, inherited) && Grown(o, k, own) && own !! inherited
    ensures Grown(m, k, own + inherited) && Agree(o, k, inherited)
  {
  }

  lemma VariantNormal(abi: Abi, t: Type, x: string, i: nat, u: Value, n: nat)
    requires n > 0 && Resolve(abi, t) == Named(x) && x in abi.variants && i < |abi.variants[x]|
    requires Normal(abi, abi.variants[x][i].typ, u, n - 1)
    ensures Normal(abi, t, Arr([Text(abi.variants[x][i].tag), u]), n)
  {
  }

  lemma ObjectNormal(abi: Abi, t: Type, x: string, k: map<string, Value>, n: nat)
    requires n > 0 && Resolve(abi, t) == Named(x) && x !in abi.variants
    requires NormalStruct(abi, x, k, n - 1) && k != map[] && k.Keys <= FieldNames(abi, x, n - 1)
    ensures Normal(abi, t, Obj(k), n)
  {
  }

  /** Whatever decodes is in normal form. */
  lemma {:induction false} DecodedNormal(c: Codec, abi: Abi, xs: set<string>, t: Type, b: Bytes, n: nat)
    requires WellNamed(abi, xs) && NameOf(t) in xs && Decode(c, abi, t, b, n).Some?
    ensures Normal(abi, t, Decode(c, abi, t, b, n).value.0, n)
    decreases n, 0, 0
  {
    var r := Resolve(abi, t);
    ResolveIn(abi, xs, t);
    if BuiltIn(abi, r).None? {
      match r {
        case ArrayOf(e) =>
          var k := c.unpackCount(b).value;
          AllNormal(c, abi, xs, e, k.1, k.0, n - 1);
        case OptionalOf(e) =>
          if b[0] != 0 {
            DecodedNormal(c, abi, xs, e, b[1..], n - 1);
          }
        case Named(x) =>
          if x in abi.variants {
            var k := c.unpackCount(b).value;
            VariantIn(abi, xs, x, k.0);
            DecodedNormal(c, abi, xs, abi.variants[x][k.0].typ, k.1, n - 1);
            VariantNormal(abi, t, x, k.0, Decode(c, abi, abi.variants[x][k.0].typ, k.1, n - 1).value.0, n);
          } else {
            StructNormal(c, abi, xs, x, b, map[], n - 1);
            ObjectNormal(abi, t, x, DecodeStruct(c, abi, x, b, map[], n - 1).value.0, n);
          }
      }
    }
  }

  lemma {:induction false} AllNormal(c: Codec, abi: Abi, xs: set<string>, t: Type, b: Bytes, k: nat, n: nat)
    requires WellNamed(abi, xs) && NameOf(t) in xs && DecodeAll(c, abi, t, b, k, n).Some?
    ensures var ws := DecodeAll(c, abi, t, b, k, n).value.0;
            |ws| == k && forall i :: 0 <= i < k ==> Normal(abi, t, ws[i], n)
    decreases n, 1, k
  {
    if k > 0 {
      DecodedNormal(c, abi, xs, t, b, n);
      AllNormal(c, abi, xs, t, Decode(c, abi, t, b, n).value.1, k - 1, n);
    }
  }

  /** Decoding a struct adds normal entries under its names and keeps the others. */
  lemma {:induction false} StructNormal(c: Codec, abi: Abi, xs: set<string>, x: string, b: Bytes, m: map<string, Value>, n: nat)
    requires WellNamed(abi, xs) && x in xs && MetAsStruct(abi, x) && DecodeStruct(c, abi, x, b, m, n).Some? && m.Keys !! FieldNames(abi, x, n)
    ensures var k := DecodeStruct(c, abi, x, b, m, n).value.0;
            NormalStruct(abi, x, k, n) && Grown(m, k, FieldNames(abi, x, n))
    decreases n, 3, 0
  {
    StructIn(abi, xs, x);
    if abi.structs[x].base.None? {
      FieldsNormal(c, abi, xs, abi.structs[x].fields, b, m, n - 1);
    } else {
      DerivedNormal(c, abi, xs, x, b, m, n);
    }
  }

  lemma {:induction false} DerivedNormal(c: Codec, abi: Abi, xs: set<string>, x: string, b: Bytes, m: map<string, Value>, n: nat)
    requires WellNamed(abi, xs) && x in xs && MetAsStruct(abi, x) && DecodeStruct(c, abi, x, b, m, n).Some? && m.Keys !! FieldNames(abi, x, n)
    requires abi.structs[x].base.Some?
    ensures var k := DecodeStruct(c, abi, x, b, m, n).value.0;
            NormalStruct(abi, x, k, n) && Grown(m, k, FieldNames(abi, x, n))
    decreases n, 2, 0
  {
    var own, inherited := NamesSplit(abi, xs, x, n, m);
    StructIn(abi, xs, x);
    DecodeParts(c, abi, xs, x, b, m, n);
    var o := DecodeStruct(c, abi, BaseOf(abi, x), b, m, n - 1).value;
    StructNormal(c, abi, xs, BaseOf(abi, x), b, m, n - 1);
    OwnNormal(c, abi, xs, x, o.1, m, o.0, own, inherited, n);
  }

  /** The own fields on top of what the base gave. */
  lemma {:induction false} OwnNormal(c: Codec, abi: Abi, xs: set<string>, x: string, b: Bytes, m: map<string, Value>, o: map<string, Value>,
                                     own: set<string>, inherited: set<string>, n: nat)
    requires WellNamed(abi, xs) && x in xs && MetAsStruct(abi, x) && abi.structs[x].base.Some? && n > 0
    requires own == OwnNames(abi.structs[x].fields) && inherited == FieldNames(abi, BaseOf(abi, x), n - 1)
    requires own !! inherited && m.Keys !! own && Grown(m, o, inherited) && NormalStruct(abi, BaseOf(abi, x), o, n - 1)
    requires DecodeFields(c, abi, abi.structs[x].fields, b, o, n - 1).Some?
    ensures var k := DecodeFields(c, abi, abi.structs[x].fields, b, o, n - 1).value.0;
            NormalStruct(abi, x, k, n) && Grown(m, k, FieldNames(abi, x, n))
    decreases n, 1, 0
  {
    StructIn(abi, xs, x);
    OwnNext(m, o, own, inherited);
    FieldsNormal(c, abi, xs, abi.structs[x].fields, b, o, n - 1);
    var k := DecodeFields(c, abi, abi.structs[x].fields, b, o, n - 1).value.0;
    GrownTwice(m, o, k, own, inherited);
    NormalAgree(abi, BaseOf(abi, x), o, k, n - 1);
    DerivedIsNormal(abi, x, k, n);
  }

  lemma DerivedIsNormal(abi: Abi, x: string, k: map<string, Value>, n: nat)
    requires x in abi.structs && abi.structs[x].base.Some? && n > 0
    requires NormalStruct(abi, BaseOf(abi, x), k, n - 1) && NormalFields(abi, abi.structs[x].fields, k, n - 1)
    ensures NormalStruct(abi, x, k, n)
  {
  }

  lemma OwnNext(m: map<string, Value>, o: map<string, Value>, own: set<string>, inherited: set<string>)
    requires m.Keys !! own && own !! inherited && Grown(m, o, inherited)
    ensures o.Keys !! own
  {
  }

  lemma {:induction false} FieldsNormal(c: Codec, abi: Abi, xs: set<string>, fs: seq<Field>, b: Bytes, m: map<string, Value>, n: nat)
    requires WellNamed(abi, xs) && TypesIn(xs, fs) && Distinct(fs) && DecodeFields(c, abi, fs, b, m, n).Some? && m.Keys !! OwnNames(fs)
    ensures var k := DecodeFields(c, abi, fs, b, m, n).value.0;
            NormalFields(abi, fs, k, n) && Grown(m, k, OwnNames(fs))
    decreases n, 1, |fs|
  {
    if fs != [] {
      NotAgain(fs);
      assert fs[0].name in OwnNames(fs) && OwnNames(fs[1..]) <= OwnNames(fs);
      if b == [] {
        FieldsNormal(c, abi, xs, fs[1..], b, m, n);
      } else {
        var w := Decode(c, abi, fs[0].typ, b, n).value;
        DecodedNormal(c, abi, xs, fs[0].typ, b, n);
        FieldsNormal(c, abi, xs, fs[1..], w.1, m[fs[0].name := w.0], n);
      }
      FrontNormal(abi, fs, DecodeFields(c, abi, fs, b, m, n).value.0, n);
    }
  }

  lemma FrontNormal(abi: Abi, fs: seq<Field>, k: map<string, Value>, n: nat)
    requires fs != [] && NormalFields(abi, fs[1..], k, n)
    requires fs[0].name in k ==> Normal(abi, fs[0].typ, k[fs[0].name], n)
    ensures NormalFields(abi, fs, k, n)
  {
    forall i | 0 <= i < |fs| && fs[i].name in k ensures Normal(abi, fs[i].typ, k[fs[i].name], n) {
      if i > 0 {
        assert fs[i] == fs[1..][i - 1];
      }
    }
  }

  // ------------------------------------------------------------------------ the promise

  /** A whole message that was accepted, structs given as objects or as positional arrays,
    * decodes with nothing left over to a normal form, and that encodes to the same bytes. */
  lemma RoundTrip(c: Codec, abi: Abi, xs: set<string>, t: Type, v: Value, n: nat, r: nat) returns (w: Value)
    requires Lawful(c) && WellNamed(abi, xs) && NameOf(t) in xs && Encode(c, abi, t, v, true, n).Some? && Whole(abi, t, v, true, n, r)
    ensures Decode(c, abi, t, Encode(c, abi, t, v, true, n).value, r) == Some((w, []))
    ensures Normal(abi, t, w, r)
    ensures Encode(c, abi, t, w, true, n) == Encode(c, abi, t, v, true, n)
  {
    var b := Encode(c, abi, t, v, true, n).value;
    w := ValueBack(c, abi, xs, t, v, true, n, r, []);
    assert b + [] == b;
    DecodedNormal(c, abi, xs, t, b, r);
  }

  /** Decoding gives a value that encodes to the bytes it came from. */
  predicate ComesBack(c: Codec, abi: Abi, t: Type, b: Bytes, n: nat, r: nat) {
    var d := Decode(c, abi, t, b, r);
    d.Some? && d.value.1 == [] && Encode(c, abi, t, d.value.0, true, n) == Some(b)
  }

  /** An accepted message comes back if and only if it is whole; if it is not, the message
    * or what it is read as is refused, and never taken for other bytes. */
  lemma RoundTripIff(c: Codec, abi: Abi, xs: set<string>, t: Type, v: Value, n: nat, r: nat)
    requires Lawful(c) && WellNamed(abi, xs) && NameOf(t) in xs && Encode(c, abi, t, v, true, n).Some?
    ensures var b := Encode(c, abi, t, v, true, n).value;
            && (ComesBack(c, abi, t, b, n, r) <==> Whole(abi, t, v, true, n, r))
            && (!ComesBack(c, abi, t, b, n, r) ==> Lost(c, abi, t, b, true, n, r))
  {
    var b := Encode(c, abi, t, v, true, n).value;
    assert b + [] == b;
    if Whole(abi, t, v, true, n, r) {
      var w := ValueBack(c, abi, xs, t, v, true, n, r, []);
    } else {
      ValueLost(c, abi, xs, t, v, true, n, r, []);
    }
  }

  /** Where extensions may not be left out, no whole value's bytes are the beginning of
    * another's. */
  lemma PrefixFree(c: Codec, abi: Abi, xs: set<string>, t: Type, v: Value, u: Value, n: nat, r: nat, restV: Bytes, restU: Bytes)
    requires Lawful(c) && WellNamed(abi, xs) && NameOf(t) in xs && Encode(c, abi, t, v, false, n).Some? && Encode(c, abi, t, u, false, n).Some?
    requires Whole(abi, t, v, false, n, r) && Whole(abi, t, u, false, n, r)
    requires Encode(c, abi, t, v, false, n).value + restV == Encode(c, abi, t, u, false, n).value + restU
    ensures Encode(c, abi, t, v, false, n) == Encode(c, abi, t, u, false, n) && restV == restU
  {
    var w := ValueBack(c, abi, xs, t, v, false, n, r, restV);
    var z := ValueBack(c, abi, xs, t, u, false, n, r, restU);
  }

  // -------------------------------------------------------------------- how deep it goes

  const MAX_RECURSION_DEPTH := 1024

  /** Scopes left to a message once its own is entered: the depth has to stay below the
    * maximum. */
  const SCOPES := MAX_RECURSION_DEPTH - 2

  /** A message written within half of the scopes there are comes back if and only if it is
    * whole, however deep it could be read. */
  lemma Shallow(c: Codec, abi: Abi, xs: set<string>, t: Type, v: Value, n: nat)
    requires Lawful(c) && WellNamed(abi, xs) && NameOf(t) in xs && Encode(c, abi, t, v, true, n).Some? && n <= 511
    ensures ComesBack(c, abi, t, Encode(c, abi, t, v, true, n).value, n, SCOPES) <==> Whole(abi, t, v, true, n, 2 * n)
  {
    RoundTripIff(c, abi, xs, t, v, n, SCOPES);
    if Whole(abi, t, v, true, n, SCOPES) {
      RoomEnough(c, abi, xs, t, v, true, n, SCOPES, 2 * n);
    }
    if Whole(abi, t, v, true, n, 2 * n) {
      RoomEnough(c, abi, xs, t, v, true, n, 2 * n, SCOPES);
    }
  }

  /** A list: an atom, and perhaps a further list. */
  function Links(): seq<Field> {
    [Field("a", Named("w"), false), Field("next", Named("s"), true)]
  }

  function Chain(v: Value, k: nat): Value {
    Obj(if k == 0 then map["a" := v] else map["a" := v, "next" := Chain(v, k - 1)])
  }

  lemma FlatParts(fs: seq<Field>, m: map<string, Value>, n: nat)
    ensures Blank(Flat(fs), Named("s"), Obj(m), n) <==> n > 0 && BlankFields(Flat(fs), fs, m, n - 1)
  {
    assert "s" != "w";
  }

  lemma FlatBytes(c: Codec, fs: seq<Field>, m: map<string, Value>, ext: bool, n: nat)
    ensures Encode(c, Flat(fs), Named("s"), Obj(m), ext, n) == if n == 0 then None else EncodeFields(c, Flat(fs), fs, m, ext, false, n - 1)
  {
    assert "s" != "w";
  }

  lemma FlatWellNamed(fs: seq<Field>)
    requires Distinct(fs) && TypesIn({"w", "s"}, fs)
    ensures WellNamed(Flat(fs), {"w", "s"})
  {
    var abi, xs := Flat(fs), {"w", "s"};
    assert "s" != "w";
    assert Mentions(abi, xs, "w") && Mentions(abi, xs, "s") && NamesOk(abi, "s");
  }

  lemma ChainNotBlank(v: Value, k: nat, n: nat)
    ensures !BlankFields(Flat(Links()), Links(), Chain(v, k).fields, n)
  {
    assert Links()[0].name in Chain(v, k).fields && !Blank(Flat(Links()), Links()[0].typ, Chain(v, k).fields["a"], n);
  }

  /** The link itself: missing at the end, or a chain of its own. */
  lemma LinkWhole(v: Value, k: nat, n: nat, r: nat)
    ensures WholeFields(Flat(Links()), Links()[1..], Chain(v, k).fields, true, n, r) <==>
            (k > 0 ==> Whole(Flat(Links()), Named("s"), Chain(v, k - 1), true, n, r))
  {
    var abi, fs, m := Flat(Links()), Links()[1..], Chain(v, k).fields;
    assert fs == [Links()[1]] && fs[1..] == [] && "a" != "next";
    if k > 0 {
      FlatParts(Links(), Chain(v, k - 1).fields, n);
      if n > 0 {
        ChainNotBlank(v, k - 1, n - 1);
      }
    }
  }

  lemma ChainStep(v: Value, k: nat, n: nat, r: nat)
    ensures Whole(Flat(Links()), Named("s"), Chain(v, k), true, n, r) <==>
            n >= 2 && r >= 3 && WholeFields(Flat(Links()), Links()[1..], Chain(v, k).fields, true, n - 1, r - 2)
  {
    var abi, fs, m := Flat(Links()), Links(), Chain(v, k).fields;
    assert "s" != "w";
    if n > 0 {
      ChainNotBlank(v, k, n - 1);
      if r > 1 {
        assert Whole(abi, fs[0].typ, m["a"], false, n - 1, r - 2) <==> n > 1 && r > 2;
        assert WholeFields(abi, fs, m, true, n - 1, r - 2) <==>
               Whole(abi, fs[0].typ, m["a"], false, n - 1, r - 2) && WholeFields(abi, fs[1..], m, true, n - 1, r - 2);
      }
    }
  }

  /** Every further link takes one scope to write and two to read. */
  lemma {:induction false} ChainWhole(v: Value, k: nat, n: nat, r: nat)
    ensures Whole(Flat(Links()), Named("s"), Chain(v, k), true, n, r) <==> n >= k + 2 && r >= 2 * k + 3
    decreases k
  {
    ChainStep(v, k, n, r);
    if n >= 2 && r >= 3 {
      LinkWhole(v, k, n - 1, r - 2);
      if k > 0 {
        ChainWhole(v, k - 1, n - 1, r - 2);
      }
    }
  }

  lemma {:induction false} ChainAccepted(c: Codec, v: Value, k: nat, n: nat)
    requires c.pack("w", Single, v).Some?
    ensures Encode(c, Flat(Links()), Named("s"), Chain(v, k), true, n).Some? <==> n >= k + 2
    decreases k
  {
    var abi, fs, m := Flat(Links()), Links(), Chain(v, k).fields;
    assert "a" != "next" && fs[1..] == [fs[1]] && fs[1..][1..] == [];
    FlatBytes(c, fs, m, true, n);
    if n > 0 {
      if k > 0 {
        ChainAccepted(c, v, k - 1, n - 1);
      }
      assert EncodeFields(c, abi, fs[1..], m, true, false, n - 1).Some? <==> (k > 0 ==> n - 1 >= k + 1);
      assert Encode(c, abi, Named("w"), v, false, n - 1).Some? <==> n > 1;
    }
  }

  /** Chains of up to 1020 links are accepted, and come back up to 509. */
  lemma ChainComesBackIff(c: Codec, v: Value, k: nat)
    requires Lawful(c) && c.pack("w", Single, v).Some?
    ensures var b := Encode(c, Flat(Links()), Named("s"), Chain(v, k), true, SCOPES);
            && (b.Some? <==> k <= 1020)
            && (b.Some? ==> (ComesBack(c, Flat(Links()), Named("s"), b.value, SCOPES, SCOPES) <==> k <= 509))
  {
    ChainAccepted(c, v, k, SCOPES);
    ChainWhole(v, k, SCOPES, SCOPES);
    if k <= 1020 {
      FlatWellNamed(Links());
      RoundTripIff(c, Flat(Links()), {"w", "s"}, Named("s"), Chain(v, k), SCOPES, SCOPES);
    }
  }

  // -------------------------------------------------------------- outside the promise

  /** One struct `s` over one built-in type `w`. */
  function Flat(fs: seq<Field>): Abi {
    Abi({"w"}, map[], map["s" := Struct(None, fs)], map[])
  }

  /** No struct decodes from nothing. */
  lemma NothingDecodes(c: Codec, abi: Abi, t: Type, r: nat)
    requires Resolve(abi, t).Named? && MetAsStruct(abi, Resolve(abi, t).name)
    ensures Decode(c, abi, t, [], r).None?
  {
    if r > 0 {
      NoEntries(c, abi, Resolve(abi, t).name, map[], r - 1);
    }
  }

  /** A struct without fields: accepted, and refused again. */
  lemma EmptyStructLost(c: Codec, n: nat, r: nat)
    requires n > 0
    ensures Encode(c, Flat([]), Named("s"), Obj(map[]), true, n) == Some([])
    ensures Decode(c, Flat([]), Named("s"), [], r).None?
  {
    assert "s" != "w";
    FlatBytes(c, [], map[], true, n);
    NothingDecodes(c, Flat([]), Named("s"), r);
  }

  /** A required field after an extension: a short positional array is accepted, and what
    * it gives is refused. The object form, which skips nothing silently, is refused at
    * once. */
  lemma ExtensionInTheMiddle(c: Codec, v: Value)
    requires Lawful(c) && c.pack("w", Single, v).Some?
    ensures var abi := Flat([Field("a", Named("w"), false), Field("b", Named("w"), true), Field("c", Named("w"), false)]);
            && Encode(c, abi, Named("s"), Arr([v]), true, 3) == c.pack("w", Single, v)
            && Decode(c, abi, Named("s"), c.pack("w", Single, v).value, 3).None?
            && Encode(c, abi, Named("s"), Obj(map["a" := v]), true, 3).None?
  {
    var fa, fb, fc := Field("a", Named("w"), false), Field("b", Named("w"), true), Field("c", Named("w"), false);
    var abi := Flat([fa, fb, fc]);
    assert "s" != "w";
    var p := c.pack("w", Single, v).value;
    assert PacksBack(c, "w", Single, v, []);
    assert p + [] == p;
    assert [fa, fb, fc][1..] == [fb, fc] && [fb, fc][1..] == [fc] && [v][1..] == [];
    assert EncodePositions(c, abi, [fb, fc], [], true, 2) == Some([]);
    EndedStreamIff(c, abi, [fb, fc], map["a" := c.unpack("w", Single, p).value.0], 1);
    assert ![fb, fc][1].extension;
  }

  /** Two fields of one name: a positional array loses the first, so the bytes come back
    * exactly when both packed alike. */
  lemma RepeatedNameIff(c: Codec, v: Value, u: Value)
    requires Lawful(c) && c.pack("w", Single, v).Some? && c.pack("w", Single, u).Some?
    ensures var abi := Flat([Field("a", Named("w"), false), Field("a", Named("w"), false)]);
            var b := Encode(c, abi, Named("s"), Arr([v, u]), true, 3);
            && b.Some? && Decode(c, abi, Named("s"), b.value, 3).Some?
            && (Encode(c, abi, Named("s"), Decode(c, abi, Named("s"), b.value, 3).value.0, true, 3) == b <==>
                c.pack("w", Single, v) == c.pack("w", Single, u))
  {
    RepeatedBytes(c, v, u);
    RepeatedRead(c, v, u);
    var p, q := c.pack("w", Single, v).value, c.pack("w", Single, u).value;
    if p + q == q + q {
      SameFront(p, q);
    }
  }

  function Twins(): seq<Field> {
    [Field("a", Named("w"), false), Field("a", Named("w"), false)]
  }

  lemma RepeatedBytes(c: Codec, v: Value, u: Value)
    requires Lawful(c) && c.pack("w", Single, v).Some? && c.pack("w", Single, u).Some?
    ensures Encode(c, Flat(Twins()), Named("s"), Arr([v, u]), true, 3) == Some(c.pack("w", Single, v).value + c.pack("w", Single, u).value)
  {
    assert "s" != "w";
    assert Twins()[1..] == [Twins()[1]] && [v, u][1..] == [u];
    var q := c.pack("w", Single, u).value;
    assert EncodePositions(c, Flat(Twins()), [Twins()[1]], [u], true, 2) == Some(q) by { assert q + [] == q; }
  }

  lemma RepeatedRead(c: Codec, v: Value, u: Value)
    requires Lawful(c) && c.pack("w", Single, v).Some? && c.pack("w", Single, u).Some?
    ensures var p, q := c.pack("w", Single, v).value, c.pack("w", Single, u).value;
            var d := Decode(c, Flat(Twins()), Named("s"), p + q, 3);
            d.Some? && Encode(c, Flat(Twins()), Named("s"), d.value.0, true, 3) == Some(q + q)
  {
    var p, q := c.pack("w", Single, v).value, c.pack("w", Single, u).value;
    var abi, fs := Flat(Twins()), Twins();
    assert "s" != "w";
    assert PacksBack(c, "w", Single, v, q) && PacksBack(c, "w", Single, u, []);
    assert q + [] == q && fs[1..] == [fs[1]];
    var v1, u1 := c.unpack("w", Single, p + q).value.0, c.unpack("w", Single, q).value.0;
    assert map["a" := v1]["a" := u1] == map["a" := u1];
    assert [fs[1]][1..] == [] && Decode(c, abi, Named("w"), q, 2) == Some((u1, []));
    assert DecodeFields(c, abi, [fs[1]], q, map["a" := v1], 2) == Some((map["a" := u1], []));
    assert EncodeFields(c, abi, [fs[1]], map["a" := u1], true, false, 2) == Some(q);
  }

  lemma SameFront(p: Bytes, q: Bytes)
    requires p + q == q + q
    ensures p == q
  {
    assert |p| == |q| && p == (p + q)[..|p|];
  }

  /** A derived struct with a field named like an inherited one, which is of another type. */
  function Overriding(): Abi {
    Abi({"w"}, map[],
        map["b" := Struct(None, [Field("a", Named("xy"), false)]), "d" := Struct(Some("b"), [Field("a", Named("x"), false)]),
            "x" := Struct(None, [Field("x", Named("w"), false)]),
            "xy" := Struct(None, [Field("x", Named("w"), false), Field("y", Named("w"), false)])],
        map[])
  }

  lemma OverridingStructs(abi: Abi)
    requires abi == Overriding()
    ensures PlainStruct(abi, Named("b")) && PlainStruct(abi, Named("d")) && PlainStruct(abi, Named("x")) && PlainStruct(abi, Named("xy"))
    ensures abi.structs["b"] == Struct(None, [Field("a", Named("xy"), false)]) && abi.structs["d"] == Struct(Some("b"), [Field("a", Named("x"), false)])
    ensures abi.structs["x"] == Struct(None, [Field("x", Named("w"), false)])
    ensures abi.structs["xy"] == Struct(None, [Field("x", Named("w"), false), Field("y", Named("w"), false)])
    ensures Resolve(abi, Named("b")) == Named("b")
  {
    assert "b" != "d" && "b" != "x" && "d" != "x";
  }

  lemma PlainBytes(c: Codec, abi: Abi, x: string, m: map<string, Value>, ext: bool, n: nat)
    requires PlainStruct(abi, Named(x)) && abi.structs[x].base.None?
    ensures Encode(c, abi, Named(x), Obj(m), ext, n) == if n == 0 then None else EncodeFields(c, abi, abi.structs[x].fields, m, ext, false, n - 1)
  {
    EncodePlain(c, abi, Named(x), Obj(m), ext, n);
  }

  lemma PlainRead(c: Codec, abi: Abi, x: string, s: Bytes, r: nat)
    requires PlainStruct(abi, Named(x)) && Decode(c, abi, Named(x), s, r).Some?
    ensures r > 1 && DecodeStruct(c, abi, x, s, map[], r - 1).Some?
    ensures Decode(c, abi, Named(x), s, r).value.0 == Obj(DecodeStruct(c, abi, x, s, map[], r - 1).value.0)
  {
    assert Resolve(abi, Named(x)) == Named(x);
  }

  lemma OneRead(c: Codec, abi: Abi, f: Field, s: Bytes, m: map<string, Value>, r: nat)
    requires !f.extension && DecodeFields(c, abi, [f], s, m, r).Some?
    ensures Decode(c, abi, f.typ, s, r).Some? && DecodeFields(c, abi, [f], s, m, r).value.0 == m[f.name := Decode(c, abi, f.typ, s, r).value.0]
  {
    assert [f][1..] == [];
  }

  lemma OneField(c: Codec, abi: Abi, f: Field, m: map<string, Value>, ext: bool, n: nat)
    requires !f.extension
    ensures EncodeFields(c, abi, [f], m, ext, false, n).Some? <==> f.name in m && Encode(c, abi, f.typ, m[f.name], ext, n).Some?
  {
    assert [f][1..] == [];
  }

  lemma TwoFields(c: Codec, abi: Abi, f: Field, g: Field, m: map<string, Value>, ext: bool, n: nat)
    requires !f.extension && !g.extension
    ensures EncodeFields(c, abi, [f, g], m, ext, false, n).Some? <==>
            && f.name in m && Encode(c, abi, f.typ, m[f.name], false, n).Some?
            && g.name in m && Encode(c, abi, g.typ, m[g.name], ext, n).Some?
  {
    assert [f, g][1..] == [g];
    OneField(c, abi, g, m, ext, n);
  }

  /** When such a struct is written: its one entry has to do for both types. */
  lemma OverridingWritten(c: Codec, abi: Abi, k: map<string, Value>, ext: bool, n: nat)
    requires abi == Overriding() && n > 0
    ensures Encode(c, abi, Named("d"), Obj(k), ext, n).Some? <==>
            && n > 1 && "a" in k && Encode(c, abi, Named("xy"), k["a"], false, n - 2).Some? && Encode(c, abi, Named("x"), k["a"], ext, n - 1).Some?
  {
    OverridingStructs(abi);
    EncodePlain(c, abi, Named("d"), Obj(k), ext, n);
    PlainBytes(c, abi, "b", k, false, n - 1);
    OneField(c, abi, Field("a", Named("x"), false), k, ext, n - 1);
    if n > 1 {
      OneField(c, abi, Field("a", Named("xy"), false), k, false, n - 2);
    }
  }

  /** Such a value is accepted, and nothing that is ever read as one is. */
  lemma InheritedNameLost(c: Codec, v: Value, n: nat)
    requires c.pack("w", Single, v).Some? && n >= 4
    ensures Encode(c, Overriding(), Named("d"), Obj(map["a" := Obj(map["x" := v, "y" := v])]), true, n).Some?
    ensures forall s: Bytes, r: nat :: Lost(c, Overriding(), Named("d"), s, true, n, r)
  {
    var abi, m := Overriding(), map["x" := v, "y" := v];
    OverridingStructs(abi);
    OverridingWritten(c, abi, map["a" := Obj(m)], true, n);
    PlainBytes(c, abi, "xy", m, false, n - 2);
    PlainBytes(c, abi, "x", m, true, n - 1);
    OneField(c, abi, Field("x", Named("w"), false), m, true, n - 2);
    TwoFields(c, abi, Field("x", Named("w"), false), Field("y", Named("w"), false), m, false, n - 3);
    forall s: Bytes, r: nat ensures Lost(c, abi, Named("d"), s, true, n, r) {
      OverridingLost(c, abi, s, n, r);
    }
  }

  /** What is read as x has no entry y. */
  lemma ReadWithoutY(c: Codec, abi: Abi, s: Bytes, r: nat)
    requires abi == Overriding() && Decode(c, abi, Named("x"), s, r).Some?
    ensures var w := Decode(c, abi, Named("x"), s, r).value.0; w.Obj? && "y" !in w.fields
  {
    OverridingStructs(abi);
    PlainRead(c, abi, "x", s, r);
    OthersKept(c, abi, abi.structs["x"].fields, s, map[], r - 2);
    assert "y" !in OwnNames(abi.structs["x"].fields);
  }

  /** When it is read, the own field replaces the inherited one. */
  lemma OverridingRead(c: Codec, abi: Abi, s: Bytes, r: nat) returns (k: map<string, Value>, s1: Bytes)
    requires abi == Overriding() && Decode(c, abi, Named("d"), s, r).Some?
    ensures r > 1 && Decode(c, abi, Named("x"), s1, r - 2).Some?
    ensures Decode(c, abi, Named("d"), s, r).value.0 == Obj(k["a" := Decode(c, abi, Named("x"), s1, r - 2).value.0])
  {
    OverridingStructs(abi);
    PlainRead(c, abi, "d", s, r);
    var o := DecodeStruct(c, abi, "b", s, map[], r - 2);
    assert o.Some? && DecodeStruct(c, abi, "d", s, map[], r - 1) == DecodeFields(c, abi, abi.structs["d"].fields, o.value.1, o.value.0, r - 2);
    k, s1 := o.value.0, o.value.1;
    OneRead(c, abi, Field("a", Named("x"), false), s1, k, r - 2);
  }

  lemma OverridingLost(c: Codec, abi: Abi, s: Bytes, n: nat, r: nat)
    requires abi == Overriding() && n >= 4
    ensures Lost(c, abi, Named("d"), s, true, n, r)
  {
    if Decode(c, abi, Named("d"), s, r).Some? {
      var k, s1 := OverridingRead(c, abi, s, r);
      ReadWithoutY(c, abi, s1, r - 2);
      var w := Decode(c, abi, Named("x"), s1, r - 2).value.0;
      NotWrittenAgain(c, abi, k["a" := w], w.fields, n);
    }
  }

  lemma NotWrittenAgain(c: Codec, abi: Abi, k: map<string, Value>, m: map<string, Value>, n: nat)
    requires abi == Overriding() && n >= 4 && "a" in k && k["a"] == Obj(m) && "y" !in m
    ensures Encode(c, abi, Named("d"), Obj(k), true, n).None?
  {
    OverridingStructs(abi);
    OverridingWritten(c, abi, k, true, n);
    PlainBytes(c, abi, "xy", m, false, n - 2);
    TwoFields(c, abi, Field("x", Named("w"), false), Field("y", Named("w"), false), m, false, n - 3);
  }

  /** A struct that bears the name of a built-in type, and one derived from it. */
  function Shadowed(): Abi {
    Abi({"w"}, map[], map["w" := Struct(None, []), "d" := Struct(Some("w"), [])], map[])
  }

  /** The base is written as the built-in type and read as the struct. */
  lemma ShadowedBaseLost(c: Codec, m: map<string, Value>, n: nat, r: nat)
    requires c.pack("w", Single, Obj(m)).Some? && n >= 2
    ensures Encode(c, Shadowed(), Named("d"), Obj(m), true, n).Some?
    ensures forall s: Bytes :: Decode(c, Shadowed(), Named("d"), s, r).None?
  {
    var abi := Shadowed();
    assert "d" != "w" && Resolve(abi, Named("w")) == Named("w") && Resolve(abi, Named("d")) == Named("d");
    assert EncodeStruct(c, abi, "d", Obj(m), true, n - 1).Some?;
    forall s: Bytes ensures Decode(c, abi, Named("d"), s, r).None? {
      if r > 2 {
        assert DecodeStruct(c, abi, "w", s, map[], r - 2) == Some((map[], s));
        assert DecodeStruct(c, abi, "d", s, map[], r - 1) == Some((map[], s));
      }
    }
  }

  // -------------------------------------------------------------- a packing that is lawful

  /** Atoms as themselves, and every object as zero. */
  function PackAtom(x: string, sh: Shape, v: Value): Option<Bytes> {
    if v.Atom? then Some([v.a]) else if v.Obj? then Some([0]) else None
  }

  function UnpackAtom(x: string, sh: Shape, b: Bytes): Option<(Value, Bytes)> {
    if b == [] then None else Some((Atom(b[0]), b[1..]))
  }

  function UnpackNumber(b: Bytes): Option<(nat, Bytes)> {
    if b == [] then None else Some((b[0], b[1..]))
  }

  /** The assumptions on built-in packing can be met. */
  lemma LawfulExists(m: map<string, Value>)
    ensures var c := Codec(PackAtom, UnpackAtom, k => [k], UnpackNumber);
            Lawful(c) && c.pack("w", Single, Obj(m)).Some?
  {
    var c := Codec(PackAtom, UnpackAtom, k => [k], UnpackNumber);
    forall x, sh, v, rest: Bytes ensures PacksBack(c, x, sh, v, rest) {
      if v.Atom? {
        assert ([v.a] + rest)[1..] == rest;
      } else if v.Obj? {
        assert ([0] + rest)[1..] == rest;
      }
    }
    forall k, rest: Bytes ensures CountsBack(c, k, rest) {
      assert ([k] + rest)[1..] == rest;
    }
  }
}

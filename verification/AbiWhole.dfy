/** Which values of which interfaces come back: conditions on the names an interface uses
  * and on the value, neither of which mentions the codec. */
module AbiWhole {
  import opened AbiCodec

  // --------------------------------------------------------------- names of an interface

  function OwnNames(fs: seq<Field>): set<string> {
    set f | f in fs :: f.name
  }

  /** The names of a struct's fields and of those it inherits through n bases. */
  function FieldNames(abi: Abi, x: string, n: nat): set<string>
    decreases n
  {
    if x !in abi.structs then {}
    else OwnNames(abi.structs[x].fields) + if abi.structs[x].base.None? || n == 0 then {} else FieldNames(abi, BaseOf(abi, x), n - 1)
  }

  /** The name of a struct's base, with aliases followed. */
  function BaseOf(abi: Abi, x: string): string
    requires x in abi.structs && abi.structs[x].base.Some?
  {
    var t := Resolve(abi, Named(abi.structs[x].base.value));
    if t.Named? then t.name else ""
  }

  predicate Distinct(fs: seq<Field>) {
    forall i, j :: 0 <= i < j < |fs| ==> fs[i].name != fs[j].name
  }

  predicate PlainStruct(abi: Abi, t: Type) {
    t.Named? && MetAsStruct(abi, t.name) && t.name !in abi.aliases
  }

  /** A name that is read as a struct, being no built-in type and no variant. */
  predicate MetAsStruct(abi: Abi, x: string) {
    x in abi.structs && x !in abi.builtins && x !in abi.variants
  }

  /** Fields are named once, also counting the inherited ones, and a base is a struct. */
  ghost predicate NamesOk(abi: Abi, x: string)
    requires x in abi.structs
  {
    && Distinct(abi.structs[x].fields)
    && (abi.structs[x].base.Some? ==>
          && PlainStruct(abi, Resolve(abi, Named(abi.structs[x].base.value)))
          && forall n :: OwnNames(abi.structs[x].fields) !! FieldNames(abi, BaseOf(abi, x), n))
  }

  function NameOf(t: Type): string {
    match t
    case Named(x) => x
    case ArrayOf(e) => NameOf(e)
    case OptionalOf(e) => NameOf(e)
  }

  predicate TypesIn(xs: set<string>, fs: seq<Field>) {
    forall i :: 0 <= i < |fs| ==> NameOf(fs[i].typ) in xs
  }

  /** Whatever a name of xs mentions is in xs. */
  predicate Mentions(abi: Abi, xs: set<string>, x: string) {
    && (x in abi.aliases ==> NameOf(abi.aliases[x]) in xs)
    && (x in abi.variants ==> forall i :: 0 <= i < |abi.variants[x]| ==> NameOf(abi.variants[x][i].typ) in xs)
    && (x in abi.structs ==> TypesIn(xs, abi.structs[x].fields) && (abi.structs[x].base.Some? ==> abi.structs[x].base.value in xs))
  }

  /** The names xs, closed under what they mention, lead to no struct with badly named
    * fields. Nothing is asked of the rest of the interface. */
  ghost predicate WellNamed(abi: Abi, xs: set<string>) {
    && (forall x {:trigger Mentions(abi, xs, x)} :: x in xs ==> Mentions(abi, xs, x))
    && (forall x {:trigger NamesOk(abi, x)} :: x in xs && MetAsStruct(abi, x) ==> NamesOk(abi, x))
  }

  lemma {:induction false} FollowIn(abi: Abi, xs: set<string>, t: Type, left: nat)
    requires WellNamed(abi, xs) && NameOf(t) in xs && Follow(abi, t, left).Some?
    ensures NameOf(Follow(abi, t, left).value) in xs
    decreases left
  {
    if t.Named? && t.name in abi.aliases {
      assert Mentions(abi, xs, t.name);
      FollowIn(abi, xs, abi.aliases[t.name], left - 1);
    }
  }

  lemma ResolveIn(abi: Abi, xs: set<string>, t: Type)
    requires WellNamed(abi, xs) && NameOf(t) in xs
    ensures NameOf(Resolve(abi, t)) in xs
  {
    if Follow(abi, t, |abi.aliases|).Some? {
      FollowIn(abi, xs, t, |abi.aliases|);
    }
  }

  /** What holds of a struct that is met, and of its base. */
  lemma StructIn(abi: Abi, xs: set<string>, x: string)
    requires WellNamed(abi, xs) && x in xs && MetAsStruct(abi, x)
    ensures Distinct(abi.structs[x].fields) && TypesIn(xs, abi.structs[x].fields)
    ensures abi.structs[x].base.Some? ==>
              var t := Resolve(abi, Named(abi.structs[x].base.value));
              PlainStruct(abi, t) && t == Named(BaseOf(abi, x)) && BaseOf(abi, x) in xs && MetAsStruct(abi, BaseOf(abi, x))
  {
    assert Mentions(abi, xs, x) && NamesOk(abi, x);
    if abi.structs[x].base.Some? {
      ResolveIn(abi, xs, Named(abi.structs[x].base.value));
    }
  }

  lemma VariantIn(abi: Abi, xs: set<string>, x: string, i: nat)
    requires WellNamed(abi, xs) && x in xs && x in abi.variants && i < |abi.variants[x]|
    ensures NameOf(abi.variants[x][i].typ) in xs
  {
    assert Mentions(abi, xs, x);
  }

  // ----------------------------------------------------------- values that take no bytes

  /** Only structs can take no bytes: those that have no field, or leave every one out, or
    * whose fields take none. */
  predicate Blank(abi: Abi, t: Type, v: Value, n: nat)
    decreases n, 0
  {
    var r := Resolve(abi, t);
    n > 0 && r.Named? && MetAsStruct(abi, r.name) && BlankStruct(abi, r.name, v, n - 1)
  }

  predicate BlankStruct(abi: Abi, x: string, v: Value, n: nat)
    requires x in abi.structs
    decreases n, 2
  {
    && (abi.structs[x].base.Some? ==> Blank(abi, Resolve(abi, Named(abi.structs[x].base.value)), v, n))
    && match v
       case Obj(m) => BlankFields(abi, abi.structs[x].fields, m, n)
       case Arr(items) => BlankPositions(abi, abi.structs[x].fields, items, n)
       case _ => true
  }

  predicate BlankFields(abi: Abi, fs: seq<Field>, m: map<string, Value>, n: nat)
    decreases n, 1
  {
    forall i :: 0 <= i < |fs| && fs[i].name in m ==> Blank(abi, fs[i].typ, m[fs[i].name], n)
  }

  predicate BlankPositions(abi: Abi, fs: seq<Field>, vs: seq<Value>, n: nat)
    decreases n, 1
  {
    forall i :: 0 <= i < |fs| && i < |vs| ==> Blank(abi, fs[i].typ, vs[i], n)
  }

  // ------------------------------------------------------------------- whole values

  predicate AllExtensions(fs: seq<Field>) {
    forall i :: 0 <= i < |fs| ==> fs[i].extension
  }

  /** Nothing of v is lost: every struct met has something to show, and where the stream
    * has ended only extensions are missing. Written within n scopes, read within r. */
  predicate Whole(abi: Abi, t: Type, v: Value, ext: bool, n: nat, r: nat)
    decreases n, 0, 0
  {
    var u := Resolve(abi, t);
    && n > 0 && r > 0
    && (BuiltIn(abi, u).Some? ||
        match u
        case ArrayOf(e) => v.Arr? && WholeAll(abi, e, v.items, n - 1, r - 1)
        case OptionalOf(e) => v.Null? || Whole(abi, e, v, ext, n - 1, r - 1)
        case Named(x) =>
          if x in abi.variants then
            && v.Arr? && |v.items| == 2 && v.items[0].Text?
            && var i := TagIndex(abi.variants[x], v.items[0].s);
               i < |abi.variants[x]| && Whole(abi, abi.variants[x][i].typ, v.items[1], ext, n - 1, r - 1)
          else x in abi.structs && !BlankStruct(abi, x, v, n - 1) && WholeStruct(abi, x, v, ext, n - 1, r - 1))
  }

  predicate WholeAll(abi: Abi, t: Type, vs: seq<Value>, n: nat, r: nat)
    decreases n, 1, |vs|
  {
    vs == [] || (Whole(abi, t, vs[0], false, n, r) && WholeAll(abi, t, vs[1..], n, r))
  }

  /** A base may have nothing to show, as long as the struct as a whole has. */
  predicate WholeStruct(abi: Abi, x: string, v: Value, ext: bool, n: nat, r: nat)
    requires x in abi.structs
    decreases n, 2, 0
  {
    && r > 0
    && (abi.structs[x].base.Some? ==> n > 0 && BaseOf(abi, x) in abi.structs && WholeStruct(abi, BaseOf(abi, x), v, false, n - 1, r - 1))
    && match v
       case Obj(m) => WholeFields(abi, abi.structs[x].fields, m, ext, n, r - 1)
       case Arr(items) => WholePositions(abi, abi.structs[x].fields, items, ext, n, r - 1)
       case _ => false
  }

  predicate WholeFields(abi: Abi, fs: seq<Field>, m: map<string, Value>, ext: bool, n: nat, r: nat)
    decreases n, 1, |fs|
  {
    fs == [] ||
    if ext && BlankFields(abi, fs, m, n) then AllExtensions(fs)
    else fs[0].name in m && Whole(abi, fs[0].typ, m[fs[0].name], ext && |fs| == 1, n, r) && WholeFields(abi, fs[1..], m, ext, n, r)
  }

  predicate WholePositions(abi: Abi, fs: seq<Field>, vs: seq<Value>, ext: bool, n: nat, r: nat)
    decreases n, 1, |fs|
  {
    fs == [] ||
    if ext && BlankPositions(abi, fs, vs, n) then AllExtensions(fs)
    else vs != [] && Whole(abi, fs[0].typ, vs[0], ext && |fs| == 1, n, r) && WholePositions(abi, fs[1..], vs[1..], ext, n, r)
  }

  // ------------------------------------------------------- blank means written as nothing

  lemma {:induction false} BlankIff(c: Codec, abi: Abi, xs: set<string>, t: Type, v: Value, ext: bool, n: nat)
    requires Lawful(c) && WellNamed(abi, xs) && NameOf(t) in xs && Encode(c, abi, t, v, ext, n).Some?
    ensures Encode(c, abi, t, v, ext, n) == Some([]) <==> Blank(abi, t, v, n)
    decreases n, 0, 0
  {
    var r := Resolve(abi, t);
    if BuiltIn(abi, r).Some? {
      assert PacksBack(c, BuiltIn(abi, r).value.0, BuiltIn(abi, r).value.1, v, []);
    } else if r.ArrayOf? {
      assert CountsBack(c, |v.items|, []);
    } else if r.Named? && r.name in abi.variants {
      assert CountsBack(c, TagIndex(abi.variants[r.name], v.items[0].s), []);
    } else if r.Named? {
      ResolveIn(abi, xs, t);
      BlankStructIff(c, abi, xs, r.name, v, ext, n - 1);
    }
  }

  lemma {:induction false} BlankStructIff(c: Codec, abi: Abi, xs: set<string>, x: string, v: Value, ext: bool, n: nat)
    requires Lawful(c) && WellNamed(abi, xs) && x in xs && MetAsStruct(abi, x) && EncodeStruct(c, abi, x, v, ext, n).Some?
    ensures EncodeStruct(c, abi, x, v, ext, n) == Some([]) <==> BlankStruct(abi, x, v, n)
    decreases n, 2, 0
  {
    StructIn(abi, xs, x);
    var fs := abi.structs[x].fields;
    if v.Arr? {
      BlankPositionsIff(c, abi, xs, fs, v.items, ext, n);
    } else {
      BlankFieldsIff(c, abi, xs, fs, v.fields, ext, false, n);
      if abi.structs[x].base.Some? {
        BlankIff(c, abi, xs, Resolve(abi, Named(abi.structs[x].base.value)), v, false, n);
      }
    }
  }

  lemma {:induction false} BlankFieldsIff(c: Codec, abi: Abi, xs: set<string>, fs: seq<Field>, m: map<string, Value>, ext: bool, omitted: bool, n: nat)
    requires Lawful(c) && WellNamed(abi, xs) && TypesIn(xs, fs) && EncodeFields(c, abi, fs, m, ext, omitted, n).Some?
    ensures EncodeFields(c, abi, fs, m, ext, omitted, n) == Some([]) <==> BlankFields(abi, fs, m, n)
    decreases n, 1, |fs|
  {
    if fs != [] {
      BlankFront(abi, fs, m, n);
      if fs[0].name in m {
        BlankIff(c, abi, xs, fs[0].typ, m[fs[0].name], ext && |fs| == 1, n);
        BlankFieldsIff(c, abi, xs, fs[1..], m, ext, false, n);
        JoinEmpty(Encode(c, abi, fs[0].typ, m[fs[0].name], ext && |fs| == 1, n), EncodeFields(c, abi, fs[1..], m, ext, false, n));
      } else {
        BlankFieldsIff(c, abi, xs, fs[1..], m, ext, true, n);
      }
    }
  }

  lemma JoinEmpty(a: Option<Bytes>, b: Option<Bytes>)
    ensures Join(a, b) == Some([]) <==> a == Some([]) && b == Some([])
  {
    assert a.Some? && b.Some? ==> |a.value + b.value| == |a.value| + |b.value|;
  }

  lemma BlankFront(abi: Abi, fs: seq<Field>, m: map<string, Value>, n: nat)
    requires fs != []
    ensures BlankFields(abi, fs, m, n) <==> (fs[0].name in m ==> Blank(abi, fs[0].typ, m[fs[0].name], n)) && BlankFields(abi, fs[1..], m, n)
  {
    if BlankFields(abi, fs[1..], m, n) && (fs[0].name in m ==> Blank(abi, fs[0].typ, m[fs[0].name], n)) {
      forall i | 0 <= i < |fs| && fs[i].name in m ensures Blank(abi, fs[i].typ, m[fs[i].name], n) {
        if i > 0 {
          assert fs[1..][i - 1] == fs[i];
        }
      }
    }
    if BlankFields(abi, fs, m, n) {
      forall i | 0 <= i < |fs| - 1 && fs[1..][i].name in m ensures Blank(abi, fs[1..][i].typ, m[fs[1..][i].name], n) {
        assert fs[1..][i] == fs[i + 1];
      }
    }
  }

  lemma {:induction false} BlankPositionsIff(c: Codec, abi: Abi, xs: set<string>, fs: seq<Field>, vs: seq<Value>, ext: bool, n: nat)
    requires Lawful(c) && WellNamed(abi, xs) && TypesIn(xs, fs) && EncodePositions(c, abi, fs, vs, ext, n).Some?
    ensures EncodePositions(c, abi, fs, vs, ext, n) == Some([]) <==> BlankPositions(abi, fs, vs, n)
    decreases n, 1, |fs|
  {
    if fs != [] && vs != [] {
      BlankIff(c, abi, xs, fs[0].typ, vs[0], ext && |fs| == 1, n);
      BlankPositionsIff(c, abi, xs, fs[1..], vs[1..], ext, n);
      BlankPositionsFront(abi, fs, vs, n);
    }
  }

  lemma BlankPositionsFront(abi: Abi, fs: seq<Field>, vs: seq<Value>, n: nat)
    requires fs != [] && vs != []
    ensures BlankPositions(abi, fs, vs, n) <==> Blank(abi, fs[0].typ, vs[0], n) && BlankPositions(abi, fs[1..], vs[1..], n)
  {
    if Blank(abi, fs[0].typ, vs[0], n) && BlankPositions(abi, fs[1..], vs[1..], n) {
      forall i | 0 <= i < |fs| && i < |vs| ensures Blank(abi, fs[i].typ, vs[i], n) {
        if i > 0 {
          assert fs[1..][i - 1] == fs[i] && vs[1..][i - 1] == vs[i];
        }
      }
    }
    if BlankPositions(abi, fs, vs, n) {
      forall i | 0 <= i < |fs| - 1 && i < |vs| - 1 ensures Blank(abi, fs[1..][i].typ, vs[1..][i], n) {
        assert fs[1..][i] == fs[i + 1] && vs[1..][i] == vs[i + 1];
      }
    }
  }

  // ---------------------------------------------------------------- scopes to read with

  /** Reading takes at most twice the scopes that writing took: with that many, more make
    * no difference. */
  lemma {:induction false} RoomEnough(c: Codec, abi: Abi, xs: set<string>, t: Type, v: Value, ext: bool, n: nat, r: nat, s: nat)
    requires WellNamed(abi, xs) && NameOf(t) in xs && Encode(c, abi, t, v, ext, n).Some? && r >= 2 * n - 1 && s >= 2 * n - 1
    requires Whole(abi, t, v, ext, n, r)
    ensures Whole(abi, t, v, ext, n, s)
    decreases n, 1, 0
  {
    var u := Resolve(abi, t);
    ResolveIn(abi, xs, t);
    if BuiltIn(abi, u).None? {
      match u {
        case ArrayOf(e) => RoomForAll(c, abi, xs, e, v.items, n - 1, r - 1, s - 1);
        case OptionalOf(e) =>
          if !v.Null? {
            RoomEnough(c, abi, xs, e, v, ext, n - 1, r - 1, s - 1);
          }
        case Named(x) => RoomForName(c, abi, xs, t, x, v, ext, n, r, s);
      }
    }
  }

  lemma {:induction false} RoomForName(c: Codec, abi: Abi, xs: set<string>, t: Type, x: string, v: Value, ext: bool, n: nat, r: nat, s: nat)
    requires WellNamed(abi, xs) && x in xs && Resolve(abi, t) == Named(x) && BuiltIn(abi, Named(x)).None?
    requires Encode(c, abi, t, v, ext, n).Some? && r >= 2 * n - 1 && s >= 2 * n - 1 && Whole(abi, t, v, ext, n, r)
    ensures Whole(abi, t, v, ext, n, s)
    decreases n, 0, 0
  {
    if x in abi.variants {
      var i := TagIndex(abi.variants[x], v.items[0].s);
      VariantIn(abi, xs, x, i);
      RoomEnough(c, abi, xs, abi.variants[x][i].typ, v.items[1], ext, n - 1, r - 1, s - 1);
    } else {
      NeedsScopes(abi, x, v, ext, n - 1, r - 1);
      RoomForStruct(c, abi, xs, x, v, ext, n - 1, r - 1, s - 1);
    }
  }

  lemma NeedsScopes(abi: Abi, x: string, v: Value, ext: bool, n: nat, r: nat)
    requires x in abi.structs && WholeStruct(abi, x, v, ext, n, r) && !BlankStruct(abi, x, v, n)
    ensures n > 0
  {
    if n == 0 && v.Obj? {
      FieldsNeedScopes(abi, abi.structs[x].fields, v.fields, ext, r - 1);
    } else if n == 0 {
      PositionsNeedScopes(abi, abi.structs[x].fields, v.items, ext, r - 1);
    }
  }

  lemma FieldsNeedScopes(abi: Abi, fs: seq<Field>, m: map<string, Value>, ext: bool, r: nat)
    requires WholeFields(abi, fs, m, ext, 0, r)
    ensures BlankFields(abi, fs, m, 0)
  {
    assert fs == [] || !Whole(abi, fs[0].typ, if fs[0].name in m then m[fs[0].name] else Null, ext && |fs| == 1, 0, r);
  }

  lemma PositionsNeedScopes(abi: Abi, fs: seq<Field>, vs: seq<Value>, ext: bool, r: nat)
    requires WholePositions(abi, fs, vs, ext, 0, r)
    ensures BlankPositions(abi, fs, vs, 0)
  {
    assert fs == [] || !Whole(abi, fs[0].typ, if vs == [] then Null else vs[0], ext && |fs| == 1, 0, r);
  }

  lemma {:induction false} RoomForAll(c: Codec, abi: Abi, xs: set<string>, t: Type, vs: seq<Value>, n: nat, r: nat, s: nat)
    requires WellNamed(abi, xs) && NameOf(t) in xs && EncodeAll(c, abi, t, vs, n).Some? && r >= 2 * n - 1 && s >= 2 * n - 1
    requires WholeAll(abi, t, vs, n, r)
    ensures WholeAll(abi, t, vs, n, s)
    decreases n, 2, |vs|
  {
    if vs != [] {
      RoomEnough(c, abi, xs, t, vs[0], false, n, r, s);
      RoomForAll(c, abi, xs, t, vs[1..], n, r, s);
    }
  }

  lemma {:induction false} RoomForStruct(c: Codec, abi: Abi, xs: set<string>, x: string, v: Value, ext: bool, n: nat, r: nat, s: nat)
    requires WellNamed(abi, xs) && x in xs && MetAsStruct(abi, x) && EncodeStruct(c, abi, x, v, ext, n).Some?
    requires WholeStruct(abi, x, v, ext, n, r) && r >= 2 * n && s >= 2 * n && s > 0
    ensures WholeStruct(abi, x, v, ext, n, s)
    decreases n, 3, 0
  {
    StructIn(abi, xs, x);
    if v.Arr? {
      RoomForPositions(c, abi, xs, abi.structs[x].fields, v.items, ext, n, r - 1, s - 1);
    } else {
      RoomForFields(c, abi, xs, abi.structs[x].fields, v.fields, ext, n, r - 1, s - 1);
      if abi.structs[x].base.Some? {
        EncodePlain(c, abi, Named(BaseOf(abi, x)), v, false, n);
        RoomForStruct(c, abi, xs, BaseOf(abi, x), v, false, n - 1, r - 1, s - 1);
      }
    }
  }

  lemma {:induction false} RoomForFields(c: Codec, abi: Abi, xs: set<string>, fs: seq<Field>, m: map<string, Value>, ext: bool, n: nat, r: nat, s: nat)
    requires WellNamed(abi, xs) && TypesIn(xs, fs) && EncodeFields(c, abi, fs, m, ext, false, n).Some? && r >= 2 * n - 1 && s >= 2 * n - 1
    requires WholeFields(abi, fs, m, ext, n, r)
    ensures WholeFields(abi, fs, m, ext, n, s)
    decreases n, 2, |fs|
  {
    if fs != [] && !(ext && BlankFields(abi, fs, m, n)) {
      RoomEnough(c, abi, xs, fs[0].typ, m[fs[0].name], ext && |fs| == 1, n, r, s);
      RoomForFields(c, abi, xs, fs[1..], m, ext, n, r, s);
    }
  }

  lemma {:induction false} RoomForPositions(c: Codec, abi: Abi, xs: set<string>, fs: seq<Field>, vs: seq<Value>, ext: bool, n: nat, r: nat, s: nat)
    requires WellNamed(abi, xs) && TypesIn(xs, fs) && EncodePositions(c, abi, fs, vs, ext, n).Some? && r >= 2 * n - 1 && s >= 2 * n - 1
    requires WholePositions(abi, fs, vs, ext, n, r)
    ensures WholePositions(abi, fs, vs, ext, n, s)
    decreases n, 2, |fs|
  {
    if fs != [] && !(ext && BlankPositions(abi, fs, vs, n)) {
      RoomEnough(c, abi, xs, fs[0].typ, vs[0], ext && |fs| == 1, n, r, s);
      RoomForPositions(c, abi, xs, fs[1..], vs[1..], ext, n, r, s);
    }
  }

  lemma EncodePlain(c: Codec, abi: Abi, t: Type, v: Value, ext: bool, n: nat)
    requires PlainStruct(abi, t)
    ensures Encode(c, abi, t, v, ext, n) == if n == 0 then None else EncodeStruct(c, abi, t.name, v, ext, n - 1)
  {
    assert Resolve(abi, t) == t;
  }
}

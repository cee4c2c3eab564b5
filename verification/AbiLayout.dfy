/** What the bytes of a value are, and which values are accepted: byte by byte and field by
  * field, without the recursive definitions of the codec. */
module AbiLayout {
  import opened AbiCodec

  // ------------------------------------------------------------------ what is accepted

  /** The values the codec accepts: built-in ones that can be packed, lists whose elements
    * are accepted, pairs naming an alternative, and structs. */
  predicate Accepts(c: Codec, abi: Abi, t: Type, v: Value, ext: bool, n: nat)
    decreases n, 0
  {
    n > 0 &&
    match Resolve(abi, t)
    case Named(x) =>
      if x in abi.builtins then c.pack(x, Single, v).Some?
      else if x in abi.variants then
        && v.Arr? && |v.items| == 2 && v.items[0].Text?
        && exists i :: 0 <= i < |abi.variants[x]| && FirstTag(abi.variants[x], v.items[0].s, i) && Accepts(c, abi, abi.variants[x][i].typ, v.items[1], ext, n - 1)
      else x in abi.structs && AcceptsStruct(c, abi, abi.structs[x], v, ext, n - 1)
    case ArrayOf(e) =>
      if e.Named? && e.name in abi.builtins then c.pack(e.name, Many, v).Some?
      else v.Arr? && forall i :: 0 <= i < |v.items| ==> Accepts(c, abi, e, v.items[i], false, n - 1)
    case OptionalOf(e) =>
      if e.Named? && e.name in abi.builtins then c.pack(e.name, Maybe, v).Some? else v.Null? || Accepts(c, abi, e, v, ext, n - 1)
  }

  /** The first alternative with that tag. */
  predicate FirstTag(alts: seq<Alternative>, tag: string, i: nat) {
    i < |alts| && alts[i].tag == tag && forall j :: 0 <= j < i ==> alts[j].tag != tag
  }

  /** Objects whose entries are accepted, and with them the base; what is missing are
    * extensions at the end, where that is allowed. Without a base also lists, of which the
    * first field that is missing has to be an extension. */
  predicate AcceptsStruct(c: Codec, abi: Abi, st: Struct, v: Value, ext: bool, n: nat)
    decreases n, 2
  {
    match v
    case Obj(m) => AcceptsFields(c, abi, st.fields, m, ext, n) && (st.base.Some? ==> Accepts(c, abi, Resolve(abi, Named(st.base.value)), v, false, n))
    case Arr(items) => st.base.None? && AcceptsPositions(c, abi, st.fields, items, ext, n)
    case _ => false
  }

  predicate AcceptsFields(c: Codec, abi: Abi, fs: seq<Field>, m: map<string, Value>, ext: bool, n: nat)
    decreases n, 1
  {
    && (forall i :: 0 <= i < |fs| && fs[i].name in m ==> Accepts(c, abi, fs[i].typ, m[fs[i].name], ext && i + 1 == |fs|, n))
    && (forall i :: 0 <= i < |fs| && fs[i].name !in m ==> ext && fs[i].extension)
    && (forall i, j :: 0 <= i < j < |fs| && fs[i].name !in m ==> fs[j].name !in m)
  }

  predicate AcceptsPositions(c: Codec, abi: Abi, fs: seq<Field>, vs: seq<Value>, ext: bool, n: nat)
    decreases n, 1
  {
    && (forall i :: 0 <= i < |fs| && i < |vs| ==> Accepts(c, abi, fs[i].typ, vs[i], ext && i + 1 == |fs|, n))
    && (|vs| < |fs| ==> ext && fs[|vs|].extension)
  }

  lemma {:induction false} TagIndexFirst(alts: seq<Alternative>, tag: string, i: nat)
    requires FirstTag(alts, tag, i)
    ensures TagIndex(alts, tag) == i
  {
    if i > 0 {
      assert forall j :: 0 <= j < i - 1 ==> alts[1..][j] == alts[j + 1];
      TagIndexFirst(alts[1..], tag, i - 1);
    }
  }

  lemma {:induction false} TagIndexIs(alts: seq<Alternative>, tag: string)
    ensures TagIndex(alts, tag) < |alts| ==> FirstTag(alts, tag, TagIndex(alts, tag))
    decreases |alts|
  {
    if alts != [] && alts[0].tag != tag {
      TagIndexIs(alts[1..], tag);
    }
  }

  /** A value is accepted if and only if it meets the condition. */
  lemma {:induction false} AcceptedIff(c: Codec, abi: Abi, t: Type, v: Value, ext: bool, n: nat)
    ensures Encode(c, abi, t, v, ext, n).Some? <==> Accepts(c, abi, t, v, ext, n)
    decreases n, 0, 0
  {
    if n > 0 {
      match Resolve(abi, t) {
        case Named(x) =>
          if x !in abi.builtins {
            NamedIff(c, abi, t, x, v, ext, n);
          }
        case ArrayOf(e) =>
          if v.Arr? {
            AllIff(c, abi, e, v.items, n - 1);
          }
        case OptionalOf(e) => AcceptedIff(c, abi, e, v, ext, n - 1);
      }
    }
  }

  lemma {:induction false} NamedIff(c: Codec, abi: Abi, t: Type, x: string, v: Value, ext: bool, n: nat)
    requires n > 0 && Resolve(abi, t) == Named(x) && x !in abi.builtins
    ensures Encode(c, abi, t, v, ext, n).Some? <==> Accepts(c, abi, t, v, ext, n)
    decreases n - 1, 3, 0
  {
    if x in abi.variants {
      if v.Arr? && |v.items| == 2 && v.items[0].Text? {
        VariantIff(c, abi, abi.variants[x], v.items[0].s, v.items[1], ext, n - 1);
      }
    } else if x in abi.structs {
      StructIff(c, abi, x, v, ext, n - 1);
    }
  }

  lemma {:induction false} VariantIff(c: Codec, abi: Abi, alts: seq<Alternative>, tag: string, u: Value, ext: bool, n: nat)
    ensures var i := TagIndex(alts, tag);
            (i < |alts| && Encode(c, abi, alts[i].typ, u, ext, n).Some?) <==>
            exists i :: 0 <= i < |alts| && FirstTag(alts, tag, i) && Accepts(c, abi, alts[i].typ, u, ext, n)
    decreases n, 1, 0
  {
    var i := TagIndex(alts, tag);
    TagIndexIs(alts, tag);
    if i < |alts| {
      AcceptedIff(c, abi, alts[i].typ, u, ext, n);
    }
    forall j: nat | FirstTag(alts, tag, j) ensures j == i {
      TagIndexFirst(alts, tag, j);
    }
  }

  lemma {:induction false} AllIff(c: Codec, abi: Abi, t: Type, vs: seq<Value>, n: nat)
    ensures EncodeAll(c, abi, t, vs, n).Some? <==> forall i :: 0 <= i < |vs| ==> Accepts(c, abi, t, vs[i], false, n)
    decreases n, 1, |vs|
  {
    if vs != [] {
      AcceptedIff(c, abi, t, vs[0], false, n);
      AllIff(c, abi, t, vs[1..], n);
      assert forall i :: 0 < i < |vs| ==> vs[i] == vs[1..][i - 1];
      assert forall i :: 0 <= i < |vs| - 1 ==> vs[1..][i] == vs[i + 1];
    }
  }

  lemma {:induction false} StructIff(c: Codec, abi: Abi, x: string, v: Value, ext: bool, n: nat)
    requires x in abi.structs
    ensures EncodeStruct(c, abi, x, v, ext, n).Some? <==> AcceptsStruct(c, abi, abi.structs[x], v, ext, n)
    decreases n, 2, 0
  {
    var st := abi.structs[x];
    match v {
      case Obj(m) =>
        FieldsIff(c, abi, st.fields, m, ext, n);
        if st.base.Some? {
          AcceptedIff(c, abi, Resolve(abi, Named(st.base.value)), v, false, n);
        }
      case Arr(items) => PositionsIff(c, abi, st.fields, items, ext, n);
      case _ =>
    }
  }

  lemma {:induction false} OmittedIff(c: Codec, abi: Abi, fs: seq<Field>, m: map<string, Value>, ext: bool, n: nat)
    ensures EncodeFields(c, abi, fs, m, ext, true, n).Some? <==> forall i :: 0 <= i < |fs| ==> fs[i].name !in m && ext && fs[i].extension
    decreases |fs|
  {
    if fs != [] {
      OmittedIff(c, abi, fs[1..], m, ext, n);
      assert forall i :: 0 < i < |fs| ==> fs[i] == fs[1..][i - 1];
      assert forall i :: 0 <= i < |fs| - 1 ==> fs[1..][i] == fs[i + 1];
    }
  }

  lemma {:induction false} FieldsIff(c: Codec, abi: Abi, fs: seq<Field>, m: map<string, Value>, ext: bool, n: nat)
    ensures EncodeFields(c, abi, fs, m, ext, false, n).Some? <==> AcceptsFields(c, abi, fs, m, ext, n)
    decreases n, 1, |fs|
  {
    if fs != [] {
      if fs[0].name in m {
        AcceptedIff(c, abi, fs[0].typ, m[fs[0].name], ext && |fs| == 1, n);
        FieldsIff(c, abi, fs[1..], m, ext, n);
        FieldsTail(c, abi, fs, m, ext, n);
      } else {
        OmittedIff(c, abi, fs[1..], m, ext, n);
        assert forall i :: 0 < i < |fs| ==> fs[i] == fs[1..][i - 1];
        assert forall i :: 0 <= i < |fs| - 1 ==> fs[1..][i] == fs[i + 1];
      }
    }
  }

  lemma FieldsTail(c: Codec, abi: Abi, fs: seq<Field>, m: map<string, Value>, ext: bool, n: nat)
    requires fs != [] && fs[0].name in m
    ensures AcceptsFields(c, abi, fs, m, ext, n) <==>
            Accepts(c, abi, fs[0].typ, m[fs[0].name], ext && |fs| == 1, n) && AcceptsFields(c, abi, fs[1..], m, ext, n)
  {
    assert forall i :: 0 < i < |fs| ==> fs[i] == fs[1..][i - 1];
    assert forall i :: 0 <= i < |fs| - 1 ==> fs[1..][i] == fs[i + 1];
  }

  lemma {:induction false} PositionsIff(c: Codec, abi: Abi, fs: seq<Field>, vs: seq<Value>, ext: bool, n: nat)
    ensures EncodePositions(c, abi, fs, vs, ext, n).Some? <==> AcceptsPositions(c, abi, fs, vs, ext, n)
    decreases n, 1, |fs|
  {
    if fs != [] && vs != [] {
      AcceptedIff(c, abi, fs[0].typ, vs[0], ext && |fs| == 1, n);
      PositionsIff(c, abi, fs[1..], vs[1..], ext, n);
      PositionsTail(c, abi, fs, vs, ext, n);
    }
  }

  lemma PositionsTail(c: Codec, abi: Abi, fs: seq<Field>, vs: seq<Value>, ext: bool, n: nat)
    requires fs != [] && vs != []
    ensures AcceptsPositions(c, abi, fs, vs, ext, n) <==>
            Accepts(c, abi, fs[0].typ, vs[0], ext && |fs| == 1, n) && AcceptsPositions(c, abi, fs[1..], vs[1..], ext, n)
  {
    assert forall i :: 0 < i < |fs| ==> fs[i] == fs[1..][i - 1];
    assert forall i :: 0 < i < |vs| ==> vs[i] == vs[1..][i - 1];
    assert forall i :: 0 <= i < |fs| - 1 ==> fs[1..][i] == fs[i + 1];
    assert forall i :: 0 <= i < |vs| - 1 ==> vs[1..][i] == vs[i + 1];
  }

  // --------------------------------------------------------------------- what is written

  predicate Ascending(cuts: seq<nat>) {
    forall i, j :: 0 <= i <= j < |cuts| ==> cuts[i] <= cuts[j]
  }

  lemma OneCutMore(head: Bytes, e: Bytes, body: Bytes, cuts: seq<nat>)
    requires cuts != [] && cuts[0] == |head + e| && Ascending(cuts)
    ensures Ascending([|head|] + cuts)
    ensures head + (e + body) == (head + e) + body
    ensures ([|head|] + cuts)[1] == |head + e| && (head + (e + body))[|head|..|head + e|] == e
    ensures forall i :: 0 < i < |cuts| + 1 ==> ([|head|] + cuts)[i] == cuts[i - 1]
  {
  }

  lemma {:induction false} AllCuts(c: Codec, abi: Abi, t: Type, vs: seq<Value>, n: nat, head: Bytes) returns (b: Bytes, cuts: seq<nat>)
    requires EncodeAll(c, abi, t, vs, n).Some?
    ensures b == head + EncodeAll(c, abi, t, vs, n).value
    ensures |cuts| == |vs| + 1 && cuts[0] == |head| && cuts[|vs|] == |b| && Ascending(cuts)
    ensures forall i :: 0 <= i < |vs| ==> Encode(c, abi, t, vs[i], false, n) == Some(b[cuts[i]..cuts[i + 1]])
    decreases |vs|
  {
    if vs == [] {
      b, cuts := head + [], [|head|];
    } else {
      var e, body := Encode(c, abi, t, vs[0], false, n).value, EncodeAll(c, abi, t, vs[1..], n).value;
      var rest;
      b, rest := AllCuts(c, abi, t, vs[1..], n, head + e);
      cuts := [|head|] + rest;
      OneCutMore(head, e, body, rest);
      assert forall i :: 0 < i < |vs| ==> vs[i] == vs[1..][i - 1];
    }
  }

  /** An array: the number of its elements, then their bytes one after the other, the first
    * element first. Element i lies between the cuts i and i + 1. */
  lemma ArrayLayout(c: Codec, abi: Abi, t: Type, e: Type, v: Value, ext: bool, n: nat) returns (b: Bytes, cuts: seq<nat>)
    requires Resolve(abi, t) == ArrayOf(e) && !(e.Named? && e.name in abi.builtins) && Encode(c, abi, t, v, ext, n).Some?
    ensures Encode(c, abi, t, v, ext, n) == Some(b) && n > 0 && v.Arr? && |cuts| == |v.items| + 1
    ensures Ascending(cuts) && cuts[|v.items|] == |b| && b[..cuts[0]] == c.packCount(|v.items|)
    ensures forall i :: 0 <= i < |v.items| ==> Encode(c, abi, e, v.items[i], false, n - 1) == Some(b[cuts[i]..cuts[i + 1]])
  {
    b, cuts := AllCuts(c, abi, e, v.items, n - 1, c.packCount(|v.items|));
  }

  /** Built-in types, alone or below one suffix, are left to their own packing. */
  lemma BuiltInLayout(c: Codec, abi: Abi, t: Type, x: string, v: Value, ext: bool, n: nat)
    requires n > 0 && x in abi.builtins
    ensures Resolve(abi, t) == Named(x) ==> Encode(c, abi, t, v, ext, n) == c.pack(x, Single, v)
    ensures Resolve(abi, t) == ArrayOf(Named(x)) ==> Encode(c, abi, t, v, ext, n) == c.pack(x, Many, v)
    ensures Resolve(abi, t) == OptionalOf(Named(x)) ==> Encode(c, abi, t, v, ext, n) == c.pack(x, Maybe, v)
  {
  }

  /** A byte tells whether there is a value. */
  lemma OptionalLayout(c: Codec, abi: Abi, t: Type, e: Type, v: Value, ext: bool, n: nat)
    requires Resolve(abi, t) == OptionalOf(e) && !(e.Named? && e.name in abi.builtins) && Encode(c, abi, t, v, ext, n).Some?
    ensures var b := Encode(c, abi, t, v, ext, n).value;
            if v.Null? then b == [0] else n > 0 && b != [] && b[0] == 1 && Encode(c, abi, e, v, ext, n - 1) == Some(b[1..])
  {
    if !v.Null? {
      var body := Encode(c, abi, e, v, ext, n - 1).value;
      assert ([1] + body)[1..] == body;
    }
  }

  /** The position of the first alternative with that tag, then its value. */
  lemma VariantLayout(c: Codec, abi: Abi, t: Type, x: string, v: Value, ext: bool, n: nat) returns (i: nat, cut: nat)
    requires Resolve(abi, t) == Named(x) && x !in abi.builtins && x in abi.variants && Encode(c, abi, t, v, ext, n).Some?
    ensures n > 0 && v.Arr? && |v.items| == 2 && v.items[0].Text? && i < |abi.variants[x]|
    ensures abi.variants[x][i].tag == v.items[0].s && forall j :: 0 <= j < i ==> abi.variants[x][j].tag != v.items[0].s
    ensures var b := Encode(c, abi, t, v, ext, n).value;
            cut <= |b| && b[..cut] == c.packCount(i) && Encode(c, abi, abi.variants[x][i].typ, v.items[1], ext, n - 1) == Some(b[cut..])
  {
    var alts := abi.variants[x];
    i := TagIndex(alts, v.items[0].s);
    TagIndexIs(alts, v.items[0].s);
    cut := |c.packCount(i)|;
    var body := Encode(c, abi, alts[i].typ, v.items[1], ext, n - 1).value;
    assert (c.packCount(i) + body)[..cut] == c.packCount(i) && (c.packCount(i) + body)[cut..] == body;
  }

  /** What was cut out for the first fields of a struct, with their values. */
  ghost predicate Written(c: Codec, abi: Abi, fs: seq<Field>, vs: seq<Value>, ext: bool, n: nat, b: Bytes, cuts: seq<nat>) {
    && |cuts| == |vs| + 1 && |vs| <= |fs| && cuts[|vs|] == |b| && Ascending(cuts)
    && forall i :: 0 <= i < |vs| ==> Encode(c, abi, fs[i].typ, vs[i], ext && i + 1 == |fs|, n) == Some(b[cuts[i]..cuts[i + 1]])
  }

  lemma WrittenFront(c: Codec, abi: Abi, fs: seq<Field>, v: Value, vs: seq<Value>, ext: bool, n: nat, head: Bytes, e: Bytes, body: Bytes, cuts: seq<nat>)
    requires fs != [] && Encode(c, abi, fs[0].typ, v, ext && |fs| == 1, n) == Some(e)
    requires Written(c, abi, fs[1..], vs, ext, n, (head + e) + body, cuts) && cuts[0] == |head + e|
    ensures Written(c, abi, fs, [v] + vs, ext, n, head + (e + body), [|head|] + cuts)
  {
    OneCutMore(head, e, body, cuts);
    var all, b, ws := [|head|] + cuts, head + (e + body), [v] + vs;
    forall i | 0 <= i < |ws|
      ensures Encode(c, abi, fs[i].typ, ws[i], ext && i + 1 == |fs|, n) == Some(b[all[i]..all[i + 1]])
    {
      if i > 0 {
        assert fs[i] == fs[1..][i - 1] && ws[i] == vs[i - 1];
      }
    }
  }

  lemma {:induction false} OmittedBytes(c: Codec, abi: Abi, fs: seq<Field>, m: map<string, Value>, ext: bool, n: nat)
    requires EncodeFields(c, abi, fs, m, ext, true, n).Some?
    ensures EncodeFields(c, abi, fs, m, ext, true, n) == Some([])
    decreases |fs|
  {
    if fs != [] {
      OmittedBytes(c, abi, fs[1..], m, ext, n);
    }
  }

  lemma {:induction false} FieldCuts(c: Codec, abi: Abi, fs: seq<Field>, m: map<string, Value>, ext: bool, n: nat, head: Bytes)
    returns (vs: seq<Value>, cuts: seq<nat>)
    requires EncodeFields(c, abi, fs, m, ext, false, n).Some?
    ensures Written(c, abi, fs, vs, ext, n, head + EncodeFields(c, abi, fs, m, ext, false, n).value, cuts) && cuts[0] == |head|
    ensures forall i :: 0 <= i < |fs| ==> (fs[i].name in m <==> i < |vs|) && (i < |vs| ==> vs[i] == m[fs[i].name])
    decreases |fs|
  {
    if fs == [] {
      vs, cuts := [], [|head|];
    } else if fs[0].name in m {
      var e, body := Encode(c, abi, fs[0].typ, m[fs[0].name], ext && |fs| == 1, n).value, EncodeFields(c, abi, fs[1..], m, ext, false, n).value;
      var ws, rest := FieldCuts(c, abi, fs[1..], m, ext, n, head + e);
      vs, cuts := [m[fs[0].name]] + ws, [|head|] + rest;
      WrittenFront(c, abi, fs, m[fs[0].name], ws, ext, n, head, e, body, rest);
      assert forall i :: 0 < i < |fs| ==> fs[i] == fs[1..][i - 1];
    } else {
      vs, cuts := [], [|head|];
      OmittedIff(c, abi, fs[1..], m, ext, n);
      OmittedBytes(c, abi, fs[1..], m, ext, n);
      assert head + [] == head;
      assert forall i :: 0 < i < |fs| ==> fs[i] == fs[1..][i - 1];
    }
  }

  lemma {:induction false} PositionCuts(c: Codec, abi: Abi, fs: seq<Field>, items: seq<Value>, ext: bool, n: nat, head: Bytes)
    returns (vs: seq<Value>, cuts: seq<nat>)
    requires EncodePositions(c, abi, fs, items, ext, n).Some?
    ensures Written(c, abi, fs, vs, ext, n, head + EncodePositions(c, abi, fs, items, ext, n).value, cuts) && cuts[0] == |head|
    ensures |vs| <= |items| && vs == items[..|vs|] && (|vs| == |fs| || |vs| == |items|)
    decreases |fs|
  {
    if fs == [] || items == [] {
      vs, cuts := [], [|head|];
      assert head + [] == head;
    } else {
      var e, body := Encode(c, abi, fs[0].typ, items[0], ext && |fs| == 1, n).value, EncodePositions(c, abi, fs[1..], items[1..], ext, n).value;
      var ws, rest := PositionCuts(c, abi, fs[1..], items[1..], ext, n, head + e);
      vs, cuts := [items[0]] + ws, [|head|] + rest;
      WrittenFront(c, abi, fs, items[0], ws, ext, n, head, e, body, rest);
    }
  }

  /** A struct given as an object: the bytes of the base, then those of the fields in the
    * order in which they are declared, up to the first that is left out. */
  lemma ObjectLayout(c: Codec, abi: Abi, t: Type, x: string, m: map<string, Value>, ext: bool, n: nat) returns (fs: seq<Field>, b: Bytes, cuts: seq<nat>)
    requires Resolve(abi, t) == Named(x) && x !in abi.builtins && x !in abi.variants && Encode(c, abi, t, Obj(m), ext, n).Some?
    ensures Encode(c, abi, t, Obj(m), ext, n) == Some(b) && n > 0 && x in abi.structs && fs == abi.structs[x].fields
    ensures 0 < |cuts| <= |fs| + 1 && Ascending(cuts) && cuts[|cuts| - 1] == |b|
    ensures var base := abi.structs[x].base;
            if base.None? then cuts[0] == 0 else Encode(c, abi, Resolve(abi, Named(base.value)), Obj(m), false, n - 1) == Some(b[..cuts[0]])
    ensures forall i :: 0 <= i < |cuts| - 1 ==>
              && fs[i].name in m
              && Encode(c, abi, fs[i].typ, m[fs[i].name], ext && i + 1 == |fs|, n - 1) == Some(b[cuts[i]..cuts[i + 1]])
    ensures forall i :: |cuts| - 1 <= i < |fs| ==> fs[i].name !in m
  {
    fs := abi.structs[x].fields;
    var named := abi.structs[x].base;
    var base: Bytes := if named.None? then [] else Encode(c, abi, Resolve(abi, Named(named.value)), Obj(m), false, n - 1).value;
    var own := EncodeFields(c, abi, fs, m, ext, false, n - 1).value;
    assert (base + own)[..|base|] == base && (base == [] ==> base + own == own);
    var vs;
    vs, cuts := FieldCuts(c, abi, fs, m, ext, n - 1, base);
    b := base + own;
  }

  /** A struct given as a list: the values in order, as many as there are fields. */
  lemma ListLayout(c: Codec, abi: Abi, t: Type, x: string, items: seq<Value>, ext: bool, n: nat) returns (fs: seq<Field>, b: Bytes, cuts: seq<nat>)
    requires Resolve(abi, t) == Named(x) && x !in abi.builtins && x !in abi.variants && Encode(c, abi, t, Arr(items), ext, n).Some?
    ensures Encode(c, abi, t, Arr(items), ext, n) == Some(b) && n > 0 && x in abi.structs && fs == abi.structs[x].fields && abi.structs[x].base.None?
    ensures 0 < |cuts| <= |fs| + 1 && (|cuts| == |fs| + 1 || |cuts| == |items| + 1) && |cuts| <= |items| + 1
    ensures cuts[0] == 0 && cuts[|cuts| - 1] == |b| && Ascending(cuts)
    ensures forall i :: 0 <= i < |cuts| - 1 ==> Encode(c, abi, fs[i].typ, items[i], ext && i + 1 == |fs|, n - 1) == Some(b[cuts[i]..cuts[i + 1]])
  {
    fs := abi.structs[x].fields;
    var none: Bytes := [];
    b := EncodePositions(c, abi, fs, items, ext, n - 1).value;
    assert none + b == b;
    var vs;
    vs, cuts := PositionCuts(c, abi, fs, items, ext, n - 1, none);
  }

  // ------------------------------------------------------------------------ what is read

  lemma {:induction false} AllRests(c: Codec, abi: Abi, t: Type, b: Bytes, k: nat, n: nat) returns (rests: seq<Bytes>)
    requires DecodeAll(c, abi, t, b, k, n).Some?
    ensures var d := DecodeAll(c, abi, t, b, k, n).value; |d.0| == k && |rests| == k + 1 && rests[0] == b && rests[k] == d.1
    ensures forall i :: 0 <= i < k ==> Decode(c, abi, t, rests[i], n) == Some((DecodeAll(c, abi, t, b, k, n).value.0[i], rests[i + 1]))
    decreases k
  {
    if k == 0 {
      rests := [b];
    } else {
      var w := Decode(c, abi, t, b, n).value;
      var more := AllRests(c, abi, t, w.1, k - 1, n);
      rests := [b] + more;
    }
  }

  /** An array is read element by element, the first element first: `rests` is what is left
    * of the stream before each of them and at the end. */
  lemma ArrayRead(c: Codec, abi: Abi, t: Type, e: Type, b: Bytes, n: nat) returns (ws: seq<Value>, rests: seq<Bytes>)
    requires Resolve(abi, t) == ArrayOf(e) && !(e.Named? && e.name in abi.builtins) && Decode(c, abi, t, b, n).Some?
    ensures n > 0 && |rests| == |ws| + 1 && Decode(c, abi, t, b, n) == Some((Arr(ws), rests[|ws|]))
    ensures c.unpackCount(b).Some? && c.unpackCount(b).value.0 == |ws| && c.unpackCount(b).value.1 == rests[0]
    ensures forall i :: 0 <= i < |ws| ==> Decode(c, abi, e, rests[i], n - 1) == Some((ws[i], rests[i + 1]))
  {
    var k := c.unpackCount(b).value;
    ws := DecodeAll(c, abi, e, k.1, k.0, n - 1).value.0;
    rests := AllRests(c, abi, e, k.1, k.0, n - 1);
  }

  /** Any flag but zero tells that there is a value. */
  lemma OptionalRead(c: Codec, abi: Abi, t: Type, e: Type, b: Bytes, n: nat)
    requires n > 0 && Resolve(abi, t) == OptionalOf(e) && !(e.Named? && e.name in abi.builtins)
    ensures b == [] ==> Decode(c, abi, t, b, n) == None
    ensures b != [] && b[0] == 0 ==> Decode(c, abi, t, b, n) == Some((Null, b[1..]))
    ensures b != [] && b[0] != 0 ==> Decode(c, abi, t, b, n) == Decode(c, abi, e, b[1..], n - 1)
  {
  }

  /** A position beyond the alternatives is refused. */
  lemma VariantRead(c: Codec, abi: Abi, t: Type, x: string, b: Bytes, n: nat)
    requires n > 0 && Resolve(abi, t) == Named(x) && x !in abi.builtins && x in abi.variants
    ensures var k, alts := c.unpackCount(b), abi.variants[x];
            if k.None? || k.value.0 >= |alts| || Decode(c, abi, alts[k.value.0].typ, k.value.1, n - 1).None? then Decode(c, abi, t, b, n) == None
            else
              var w := Decode(c, abi, alts[k.value.0].typ, k.value.1, n - 1).value;
              Decode(c, abi, t, b, n) == Some((Arr([Text(alts[k.value.0].tag), w.0]), w.1))
  {
  }

  /** One field: skipped at the end of the stream if it is an extension, otherwise read and
    * entered under its name. */
  ghost predicate FieldRead(c: Codec, abi: Abi, f: Field, n: nat, s: Bytes, m: map<string, Value>, s': Bytes, m': map<string, Value>) {
    if s == [] then f.extension && s' == [] && m' == m
    else exists w :: Decode(c, abi, f.typ, s, n) == Some((w, s')) && m' == m[f.name := w]
  }

  /** The fields of a struct are read in the order in which they are declared; of two with
    * one name the later one counts. `rests` is what is left of the stream before each field
    * and at the end, `ms` the entries by then. */
  lemma {:induction false} FieldsRead(c: Codec, abi: Abi, fs: seq<Field>, b: Bytes, m: map<string, Value>, n: nat)
    returns (rests: seq<Bytes>, ms: seq<map<string, Value>>)
    requires DecodeFields(c, abi, fs, b, m, n).Some?
    ensures |rests| == |ms| == |fs| + 1 && rests[0] == b && ms[0] == m && DecodeFields(c, abi, fs, b, m, n) == Some((ms[|fs|], rests[|fs|]))
    ensures forall i :: 0 <= i < |fs| ==> FieldRead(c, abi, fs[i], n, rests[i], ms[i], rests[i + 1], ms[i + 1])
    decreases |fs|
  {
    if fs == [] {
      rests, ms := [b], [m];
    } else {
      var next, entries := b, m;
      if b != [] {
        var w := Decode(c, abi, fs[0].typ, b, n).value;
        next, entries := w.1, m[fs[0].name := w.0];
      }
      var rs, ks := FieldsRead(c, abi, fs[1..], next, entries, n);
      rests, ms := [b] + rs, [m] + ks;
      forall i | 0 <= i < |fs| ensures FieldRead(c, abi, fs[i], n, rests[i], ms[i], rests[i + 1], ms[i + 1]) {
        if i > 0 {
          assert fs[i] == fs[1..][i - 1] && rests[i] == rs[i - 1] && ms[i] == ks[i - 1];
        }
      }
    }
  }

  /** A struct is read as its base is, and then its own fields; it may not come out empty. */
  lemma ObjectRead(c: Codec, abi: Abi, t: Type, x: string, b: Bytes, n: nat) returns (m: map<string, Value>, s: Bytes)
    requires Resolve(abi, t) == Named(x) && x !in abi.builtins && x !in abi.variants && Decode(c, abi, t, b, n).Some?
    ensures n > 1 && x in abi.structs
    ensures if abi.structs[x].base.None? then m == map[] && s == b
            else
              var base := Resolve(abi, Named(abi.structs[x].base.value));
              base.Named? && DecodeStruct(c, abi, base.name, b, map[], n - 2) == Some((m, s))
    ensures var k := DecodeFields(c, abi, abi.structs[x].fields, s, m, n - 2);
            k.Some? && k.value.0 != map[] && Decode(c, abi, t, b, n) == Some((Obj(k.value.0), k.value.1))
  {
    m, s := map[], b;
    if abi.structs[x].base.Some? {
      var o := DecodeStruct(c, abi, Resolve(abi, Named(abi.structs[x].base.value)).name, b, map[], n - 2).value;
      m, s := o.0, o.1;
    }
  }

  // -------------------------------------------------------------------- following aliases

  /** From one alias to the next, down to a type that is none. */
  predicate AliasPath(abi: Abi, p: seq<Type>) {
    && p != [] && !(p[|p| - 1].Named? && p[|p| - 1].name in abi.aliases)
    && forall i :: 0 <= i < |p| - 1 ==> p[i].Named? && p[i].name in abi.aliases && abi.aliases[p[i].name] == p[i + 1]
  }

  lemma {:induction false} PathsAgree(abi: Abi, p: seq<Type>, i: nat, j: nat, k: nat)
    requires AliasPath(abi, p) && i < j && j + k < |p| && p[i] == p[j]
    ensures p[i + k] == p[j + k]
    decreases k
  {
    if k > 0 {
      PathsAgree(abi, p, i, j, k - 1);
    }
  }

  lemma NoRepeats(abi: Abi, p: seq<Type>, i: nat, j: nat)
    requires AliasPath(abi, p) && i < j < |p|
    ensures p[i] != p[j]
  {
    if p[i] == p[j] {
      PathsAgree(abi, p, i, j, |p| - 1 - j);
    }
  }

  /** A path uses every alias once at most. */
  lemma {:induction false} PathLength(abi: Abi, p: seq<Type>, k: nat, left: set<string>)
    requires AliasPath(abi, p) && k < |p| && forall i :: k <= i < |p| - 1 ==> p[i].name in left
    ensures |p| - 1 - k <= |left|
    decreases |p| - k
  {
    if k < |p| - 1 {
      forall i | k + 1 <= i < |p| - 1 ensures p[i].name in left - {p[k].name} {
        NoRepeats(abi, p, k, i);
      }
      PathLength(abi, p, k + 1, left - {p[k].name});
    }
  }

  lemma {:induction false} FollowsPath(abi: Abi, p: seq<Type>, k: nat, left: nat)
    requires AliasPath(abi, p) && k < |p| && |p| - 1 - k <= left
    ensures Follow(abi, p[k], left) == Some(p[|p| - 1])
    decreases |p| - k
  {
    if k < |p| - 1 {
      FollowsPath(abi, p, k + 1, left - 1);
    }
  }

  lemma {:induction false} PathFollowed(abi: Abi, t: Type, left: nat) returns (p: seq<Type>)
    requires Follow(abi, t, left).Some?
    ensures AliasPath(abi, p) && p[0] == t && Follow(abi, t, left) == Some(p[|p| - 1])
    decreases left
  {
    p := [t];
    if t.Named? && t.name in abi.aliases {
      var more := PathFollowed(abi, abi.aliases[t.name], left - 1);
      p := [t] + more;
    }
  }

  /** A type stands for the end of its path of aliases. */
  lemma ResolveFollows(abi: Abi, p: seq<Type>)
    requires AliasPath(abi, p)
    ensures Resolve(abi, p[0]) == p[|p| - 1]
  {
    PathLength(abi, p, 0, abi.aliases.Keys);
    FollowsPath(abi, p, 0, |abi.aliases|);
  }

  /** And for itself where aliases go round in a circle. */
  lemma ResolveStuck(abi: Abi, t: Type)
    requires forall p :: AliasPath(abi, p) ==> p[0] != t
    ensures Resolve(abi, t) == t
  {
    if Follow(abi, t, |abi.aliases|).Some? {
      var p := PathFollowed(abi, t, |abi.aliases|);
    }
  }
}

/** The type-directed codec of contract interfaces: values against a description
  * with aliases, structs with bases, arrays, optionals, variants and trailing
  * binary extensions. */
module AbiCodec {

  type Bytes = seq<nat>

  datatype Option<T> = None | Some(value: T)

  // -------------------------------------------------------------- types and values

  /** A type name with its array and optional suffixes taken apart. */
  datatype Type = Named(name: string) | ArrayOf(elem: Type) | OptionalOf(elem: Type)

  datatype Field = Field(name: string, typ: Type, extension: bool)
  datatype Struct = Struct(base: Option<string>, fields: seq<Field>)

  /** An alternative is selected by its type name as written. */
  datatype Alternative = Alternative(tag: string, typ: Type)

  datatype Abi = Abi(
    builtins: set<string>,
    aliases: map<string, Type>,
    structs: map<string, Struct>,
    variants: map<string, seq<Alternative>>)

  datatype Value =
    | Null
    | Atom(a: nat)
    | Text(s: string)
    | Arr(items: seq<Value>)
    | Obj(fields: map<string, Value>)

  datatype Shape = Single | Many | Maybe

  /** Packing of built-in types and of counts, which lies outside this file. */
  datatype Codec = Codec(
    pack: (string, Shape, Value) -> Option<Bytes>,
    unpack: (string, Shape, Bytes) -> Option<(Value, Bytes)>,
    packCount: nat -> Bytes,
    unpackCount: Bytes -> Option<(nat, Bytes)>)

  /** Every built-in value takes at least one byte and comes back, from the front of a
    * longer stream, as a value that packs to the same bytes; only null gives null. */
  ghost predicate Lawful(c: Codec) {
    && (forall x, sh, v, rest: Bytes :: PacksBack(c, x, sh, v, rest))
    && (forall k, rest: Bytes :: CountsBack(c, k, rest))
  }

  predicate PacksBack(c: Codec, x: string, sh: Shape, v: Value, rest: Bytes) {
    var b := c.pack(x, sh, v);
    b.Some? ==>
      && |b.value| > 0
      && var u := c.unpack(x, sh, b.value + rest);
         u.Some? && u.value.1 == rest && c.pack(x, sh, u.value.0) == b && (!v.Null? ==> !u.value.0.Null?)
  }

  predicate CountsBack(c: Codec, k: nat, rest: Bytes) {
    |c.packCount(k)| > 0 && c.unpackCount(c.packCount(k) + rest) == Some((k, rest))
  }

  // ----------------------------------------------------------------- resolving names

  /** Follows aliases, at most as often as there are any. */
  function Follow(abi: Abi, t: Type, left: nat): Option<Type>
    decreases left
  {
    if !t.Named? || t.name !in abi.aliases then Some(t)
    else if left == 0 then None
    else Follow(abi, abi.aliases[t.name], left - 1)
  }

  function Resolve(abi: Abi, t: Type): Type {
    match Follow(abi, t, |abi.aliases|)
    case Some(r) => r
    case None => t
  }

  /** The built-in type below at most one suffix, with that suffix. */
  function BuiltIn(abi: Abi, t: Type): Option<(string, Shape)> {
    match t
    case Named(x) => if x in abi.builtins then Some((x, Single)) else None
    case ArrayOf(Named(x)) => if x in abi.builtins then Some((x, Many)) else None
    case OptionalOf(Named(x)) => if x in abi.builtins then Some((x, Maybe)) else None
    case _ => None
  }

  function TagIndex(alts: seq<Alternative>, tag: string): (i: nat)
    ensures i <= |alts| && (i < |alts| ==> alts[i].tag == tag)
  {
    if alts == [] || alts[0].tag == tag then 0 else 1 + TagIndex(alts[1..], tag)
  }

  // -------------------------------------------------------------------------- encoding

  function Join(a: Option<Bytes>, b: Option<Bytes>): Option<Bytes> {
    if a.Some? && b.Some? then Some(a.value + b.value) else None
  }

  /** `ext` tells whether trailing extension fields may be left out here; `n` is how many
    * more scopes may be entered, of which every value takes one. */
  function Encode(c: Codec, abi: Abi, t: Type, v: Value, ext: bool, n: nat): Option<Bytes>
    decreases n, 0, 0
  {
    if n == 0 then None
    else
      var r := Resolve(abi, t);
      if BuiltIn(abi, r).Some? then c.pack(BuiltIn(abi, r).value.0, BuiltIn(abi, r).value.1, v)
      else
        match r
        case ArrayOf(e) => if v.Arr? then Join(Some(c.packCount(|v.items|)), EncodeAll(c, abi, e, v.items, n - 1)) else None
        case OptionalOf(e) => if v.Null? then Some([0]) else Join(Some([1]), Encode(c, abi, e, v, ext, n - 1))
        case Named(x) =>
          if x in abi.variants then
            if v.Arr? && |v.items| == 2 && v.items[0].Text? then
              var alts := abi.variants[x];
              var i := TagIndex(alts, v.items[0].s);
              if i == |alts| then None
              else Join(Some(c.packCount(i)), Encode(c, abi, alts[i].typ, v.items[1], ext, n - 1))
            else None
          else if x in abi.structs then EncodeStruct(c, abi, x, v, ext, n - 1)
          else None
  }

  function EncodeAll(c: Codec, abi: Abi, t: Type, vs: seq<Value>, n: nat): Option<Bytes>
    decreases n, 1, |vs|
  {
    if vs == [] then Some([]) else Join(Encode(c, abi, t, vs[0], false, n), EncodeAll(c, abi, t, vs[1..], n))
  }

  /** The base's fields come first, in a scope of their own, and may not leave anything
    * out. */
  function EncodeStruct(c: Codec, abi: Abi, x: string, v: Value, ext: bool, n: nat): Option<Bytes>
    requires x in abi.structs
    decreases n, 2, 0
  {
    var st := abi.structs[x];
    match v
    case Obj(m) =>
      var own := EncodeFields(c, abi, st.fields, m, ext, false, n);
      if st.base.None? then own else Join(Encode(c, abi, Resolve(abi, Named(st.base.value)), v, false, n), own)
    case Arr(items) => if st.base.None? then EncodePositions(c, abi, st.fields, items, ext, n) else None
    case _ => None
  }

  /** Fields taken by name; after one was left out none may follow. */
  function EncodeFields(c: Codec, abi: Abi, fs: seq<Field>, m: map<string, Value>, ext: bool, omitted: bool, n: nat): Option<Bytes>
    decreases n, 1, |fs|
  {
    if fs == [] then Some([])
    else if fs[0].name in m then
      if omitted then None
      else Join(Encode(c, abi, fs[0].typ, m[fs[0].name], ext && |fs| == 1, n), EncodeFields(c, abi, fs[1..], m, ext, false, n))
    else if fs[0].extension && ext then EncodeFields(c, abi, fs[1..], m, ext, true, n)
    else None
  }

  /** Fields taken by position; surplus values are ignored. */
  function EncodePositions(c: Codec, abi: Abi, fs: seq<Field>, vs: seq<Value>, ext: bool, n: nat): Option<Bytes>
    decreases n, 1, |fs|
  {
    if fs == [] then Some([])
    else if vs != [] then
      Join(Encode(c, abi, fs[0].typ, vs[0], ext && |fs| == 1, n), EncodePositions(c, abi, fs[1..], vs[1..], ext, n))
    else if fs[0].extension && ext then Some([])
    else None
  }

  // -------------------------------------------------------------------------- decoding

  /** Here `n` counts scopes too: a value takes one, and a struct a second one. */
  function Decode(c: Codec, abi: Abi, t: Type, b: Bytes, n: nat): Option<(Value, Bytes)>
    decreases n, 0, 0
  {
    if n == 0 then None
    else
      var r := Resolve(abi, t);
      if BuiltIn(abi, r).Some? then c.unpack(BuiltIn(abi, r).value.0, BuiltIn(abi, r).value.1, b)
      else
        match r
        case ArrayOf(e) =>
          var k := c.unpackCount(b);
          if k.None? then None
          else
            var vs := DecodeAll(c, abi, e, k.value.1, k.value.0, n - 1);
            if vs.None? then None else Some((Arr(vs.value.0), vs.value.1))
        case OptionalOf(e) =>
          if b == [] then None else if b[0] == 0 then Some((Null, b[1..])) else Decode(c, abi, e, b[1..], n - 1)
        case Named(x) =>
          if x in abi.variants then
            var k := c.unpackCount(b);
            if k.None? || k.value.0 >= |abi.variants[x]| then None
            else
              var alt := abi.variants[x][k.value.0];
              var w := Decode(c, abi, alt.typ, k.value.1, n - 1);
              if w.None? then None else Some((Arr([Text(alt.tag), w.value.0]), w.value.1))
          else
            var o := DecodeStruct(c, abi, x, b, map[], n - 1);
            if o.None? || o.value.0 == map[] then None else Some((Obj(o.value.0), o.value.1))
  }

  function DecodeAll(c: Codec, abi: Abi, t: Type, b: Bytes, k: nat, n: nat): Option<(seq<Value>, Bytes)>
    decreases n, 1, k
  {
    if k == 0 then Some(([], b))
    else
      var w := Decode(c, abi, t, b, n);
      if w.None? then None
      else
        var ws := DecodeAll(c, abi, t, w.value.1, k - 1, n);
        if ws.None? then None else Some(([w.value.0] + ws.value.0, ws.value.1))
  }

  function DecodeStruct(c: Codec, abi: Abi, x: string, b: Bytes, m: map<string, Value>, n: nat): Option<(map<string, Value>, Bytes)>
    decreases n, 2, 0
  {
    if n == 0 || x !in abi.structs then None
    else
      var st := abi.structs[x];
      if st.base.None? then DecodeFields(c, abi, st.fields, b, m, n - 1)
      else
        var t := Resolve(abi, Named(st.base.value));
        var o := if t.Named? then DecodeStruct(c, abi, t.name, b, m, n - 1) else None;
        if o.None? then None else DecodeFields(c, abi, st.fields, o.value.1, o.value.0, n - 1)
  }

  /** At the end of the stream extension fields are skipped. */
  function DecodeFields(c: Codec, abi: Abi, fs: seq<Field>, b: Bytes, m: map<string, Value>, n: nat): Option<(map<string, Value>, Bytes)>
    decreases n, 1, |fs|
  {
    if fs == [] then Some((m, b))
    else if b == [] then if fs[0].extension then DecodeFields(c, abi, fs[1..], b, m, n) else None
    else
      var w := Decode(c, abi, fs[0].typ, b, n);
      if w.None? then None else DecodeFields(c, abi, fs[1..], w.value.1, m[fs[0].name := w.value.0], n)
  }
}

/** Device binaries: headers, patch tokens and kernels, read from bytes and written back to bytes. */
module PatchBinary {
  import opened Arithmetic
  import opened Bytes
  import opened Text

  // ----- the formats, as read from the patch headers --------------------------------------

  datatype Field = Field(size: nat, name: string)

  datatype TokenDef = TokenDef(name: string, fields: seq<Field>)

  /** Field lists of the two headers, and the known tokens by their 8-bit key. */
  datatype Formats = Formats(programHeader: seq<Field>, kernelHeader: seq<Field>, patchTokens: map<nat, TokenDef>)

  predicate ValidSize(n: nat) { n == 1 || n == 2 || n == 4 || n == 8 }

  // ----- the contents of a binary ---------------------------------------------------------

  datatype Value = Value(field: Field, value: nat)

  /** A patch token: title is its name if its key is known, hex the bytes no field accounts for. */
  datatype Token = Token(title: Option<string>, token: nat, size: nat, values: seq<Value>, hex: seq<byte>)

  datatype Kernel = Kernel(header: seq<Value>, nameArea: seq<byte>, kernelHeap: seq<byte>, generalHeap: seq<byte>,
                           dynamicHeap: seq<byte>, surfaceHeap: seq<byte>, tokens: seq<Token>)

  datatype Program = Program(header: seq<Value>, tokens: seq<Token>, kernels: seq<Kernel>)

  // ----- bytes of the contents ------------------------------------------------------------

  function ValuesBytes(vs: seq<Value>): seq<byte> {
    if vs == [] then [] else LE(vs[0].value, vs[0].field.size) + ValuesBytes(vs[1..])
  }

  function TokenBytes(t: Token): seq<byte> {
    LE(t.token, 4) + LE(t.size, 4) + ValuesBytes(t.values) + t.hex
  }

  function TokensBytes(ts: seq<Token>): seq<byte> {
    if ts == [] then [] else TokenBytes(ts[0]) + TokensBytes(ts[1..])
  }

  function AreaBytes(k: Kernel): seq<byte> {
    k.nameArea + k.kernelHeap + k.generalHeap + k.dynamicHeap + k.surfaceHeap
  }

  function KernelBytes(k: Kernel): seq<byte> {
    ValuesBytes(k.header) + AreaBytes(k) + TokensBytes(k.tokens)
  }

  /** The bytes of several items, one after the other. */
  function BytesOf<T>(bytes: T -> seq<byte>, items: seq<T>): seq<byte> {
    if items == [] then [] else bytes(items[0]) + BytesOf(bytes, items[1..])
  }

  function KernelsBytes(ks: seq<Kernel>): seq<byte> { BytesOf(KernelBytes, ks) }

  function ProgramBytes(p: Program): seq<byte> {
    ValuesBytes(p.header) + TokensBytes(p.tokens) + KernelsBytes(p.kernels)
  }

  // ----- reading --------------------------------------------------------------------------

  /** A part that was read and the bytes after it. */
  datatype Parsed<+T> = Malformed | Parsed(part: T, rest: seq<byte>)

  /** One value per field; an unknown field size or a missing byte is malformed. */
  function ReadValues(fields: seq<Field>, b: seq<byte>): (r: Parsed<seq<Value>>)
    ensures r.Parsed? ==> |r.rest| <= |b|
  {
    if fields == [] then Parsed([], b)
    else if !ValidSize(fields[0].size) || |b| < fields[0].size then Malformed
    else
      var tail := ReadValues(fields[1..], b[fields[0].size..]);
      if tail.Malformed? then Malformed
      else Parsed([Value(fields[0], FromLE(b[..fields[0].size]))] + tail.part, tail.rest)
  }

  /** The value of the last field of that name, or 0. */
  function Lookup(vs: seq<Value>, name: string): nat {
    if vs == [] then 0
    else if vs[|vs| - 1].field.name == name then vs[|vs| - 1].value
    else Lookup(vs[..|vs| - 1], name)
  }

  /** The fields of a token that lie within its size. */
  function FittingFields(fields: seq<Field>, room: nat): seq<Field> {
    if fields == [] || fields[0].size > room then [] else [fields[0]] + FittingFields(fields[1..], room - fields[0].size)
  }

  /** Inline data follows a token without being counted in its size. */
  function InlineSize(vs: seq<Value>): nat {
    if vs == [] then 0
    else (if vs[0].field.name == "InlineDataSize" then vs[0].value else 0) + InlineSize(vs[1..])
  }

  /** The definition of a token; the table is keyed by 8 bits, so larger tokens are cut down to them. */
  function DefinitionOf(f: Formats, token: nat): Option<TokenDef> {
    if token % 256 in f.patchTokens then Some(f.patchTokens[token % 256]) else None
  }

  /** The definition of a token by its whole number. */
  function WholeDefinition(f: Formats, token: nat): Option<TokenDef> {
    if token in f.patchTokens then Some(f.patchTokens[token]) else None
  }

  /** The table has 8-bit keys. */
  ghost predicate ByteKeys(f: Formats) { forall key :: key in f.patchTokens ==> key < 256 }

  /** A token is printed under its own definition exactly if it is below 256 or its low byte is no key. */
  lemma DefinitionRightIff(f: Formats, token: nat)
    requires ByteKeys(f)
    ensures DefinitionOf(f, token) == WholeDefinition(f, token) <==> token < 256 || token % 256 !in f.patchTokens
  {
    if token >= 256 { assert token !in f.patchTokens; }
  }

  function TokenFields(def: Option<TokenDef>, size: nat): seq<Field> {
    if def.Some? && size >= 8 then FittingFields(def.value.fields, size - 8) else []
  }

  function TitleOf(def: Option<TokenDef>): Option<string> {
    if def.Some? then Some(def.value.name) else None
  }

  /** One token from the front of a patch list. */
  function ReadToken(f: Formats, b: seq<byte>): (r: Parsed<Token>)
    ensures r.Parsed? ==> |r.rest| + 8 <= |b|
  {
    if |b| < 8 then Malformed
    else
      var token, size := FromLE(b[..4]), FromLE(b[4..8]);
      var def := DefinitionOf(f, token);
      var values := ReadValues(TokenFields(def, size), b[8..]);
      if values.Malformed? then Malformed
      else
        var used, end := |b| - |values.rest|, size + InlineSize(values.part);
        if size < 8 || end > |b| || used > end then Malformed
        else Parsed(Token(TitleOf(def), token, size, values.part, b[used..end]), b[end..])
  }

  /** Tokens that make up a patch list exactly. */
  function ReadTokens(f: Formats, b: seq<byte>): Option<seq<Token>>
    decreases |b|
  {
    if b == [] then Some([])
    else
      var first := ReadToken(f, b);
      if first.Malformed? then None
      else
        var tail := ReadTokens(f, first.rest);
        if tail.None? then None else Some([first.part] + tail.value)
  }

  function ReadPatchList(f: Formats, size: nat, b: seq<byte>): Parsed<seq<Token>> {
    if |b| < size then Malformed
    else
      var ts := ReadTokens(f, b[..size]);
      if ts.None? then Malformed else Parsed(ts.value, b[size..])
  }

  /** The sizes of the name and heap areas a kernel header announces. */
  function AreaSize(header: seq<Value>): nat {
    Lookup(header, "KernelNameSize") + Lookup(header, "KernelHeapSize") + Lookup(header, "GeneralStateHeapSize") +
    Lookup(header, "DynamicStateHeapSize") + Lookup(header, "SurfaceStateHeapSize")
  }

  /** The name and heap areas, cut off one after the other, and what follows them. */
  datatype Areas = Areas(name: seq<byte>, kernelHeap: seq<byte>, generalHeap: seq<byte>, dynamicHeap: seq<byte>,
                         surfaceHeap: seq<byte>, rest: seq<byte>)

  function CutAreas(header: seq<Value>, b: seq<byte>): Areas
    requires |b| >= AreaSize(header)
  {
    var n, k := Lookup(header, "KernelNameSize"), Lookup(header, "KernelHeapSize");
    var g, d, s := Lookup(header, "GeneralStateHeapSize"), Lookup(header, "DynamicStateHeapSize"), Lookup(header,
        "SurfaceStateHeapSize");
    var b1 := b[n..];
    var b2 := b1[k..];
    var b3 := b2[g..];
    var b4 := b3[d..];
    Areas(b[..n], b1[..k], b2[..g], b3[..d], b4[..s], b4[s..])
  }

  function KernelFrom(header: seq<Value>, a: Areas, ts: seq<Token>): Kernel {
    Kernel(header, a.name, a.kernelHeap, a.generalHeap, a.dynamicHeap, a.surfaceHeap, ts)
  }

  function ReadKernel(f: Formats, b: seq<byte>): Parsed<Kernel> {
    var header := ReadValues(f.kernelHeader, b);
    if header.Malformed? || Lookup(header.part, "KernelNameSize")
        == 0 || |header.rest| < AreaSize(header.part) then Malformed
    else
      var areas := CutAreas(header.part, header.rest);
      var list := ReadPatchList(f, Lookup(header.part, "PatchListSize"), areas.rest);
      if list.Malformed? then Malformed else Parsed(KernelFrom(header.part, areas, list.part), list.rest)
  }

  /** Several items, read one after the other. */
  function ReadMany<T>(read: seq<byte> -> Parsed<T>, n: nat, b: seq<byte>): Parsed<seq<T>> {
    if n == 0 then Parsed([], b)
    else
      var first := read(b);
      if first.Malformed? then Malformed
      else
        var tail := ReadMany(read, n - 1, first.rest);
        if tail.Malformed? then Malformed else Parsed([first.part] + tail.part, tail.rest)
  }

  function KernelReader(f: Formats): seq<byte> -> Parsed<Kernel> { (b: seq<byte>) => ReadKernel(f, b) }

  function ReadKernels(f: Formats, n: nat, b: seq<byte>): Parsed<seq<Kernel>> { ReadMany(KernelReader(f), n, b) }

  function ReadProgram(f: Formats, b: seq<byte>): Parsed<Program> {
    var header := ReadValues(f.programHeader, b);
    if header.Malformed? then Malformed
    else
      var list := ReadPatchList(f, Lookup(header.part, "PatchListSize"), header.rest);
      if list.Malformed? then Malformed
      else
        var kernels := ReadKernels(f, Lookup(header.part, "NumberOfKernels"), list.rest);
        if kernels.Malformed? then Malformed
        else Parsed(Program(header.part, list.part, kernels.part), kernels.rest)
  }

  // ----- nothing is lost in reading -------------------------------------------------------

  lemma ValuesBytesCons(v: Value, vs: seq<Value>)
    ensures ValuesBytes([v] + vs) == LE(v.value, v.field.size) + ValuesBytes(vs)
  {
    assert ([v] + vs)[1..] == vs;
  }

  lemma TokensCons(f: Formats, t: Token, ts: seq<Token>)
    requires TokenOk(f, t) && AllTokensOk(f, ts)
    ensures AllTokensOk(f, [t] + ts) && TokensBytes([t] + ts) == TokenBytes(t) + TokensBytes(ts)
  {
    assert ([t] + ts)[1..] == ts;
  }

  predicate ValuesOk(vs: seq<Value>, fields: seq<Field>) {
    |vs| == |fields| &&
    forall i :: 0 <= i < |vs| ==> vs[i].field == fields[i] && ValidSize(fields[i].size) && vs[i].value < Pow256(fields[i].size)
  }

  lemma {:induction false} ReadValuesExact(fields: seq<Field>, b: seq<byte>)
    requires ReadValues(fields, b).Parsed?
    ensures var r := ReadValues(fields, b);
      ValuesOk(r.part, fields) && ValuesBytes(r.part) + r.rest == b
  {
    if fields != [] {
      var n := fields[0].size;
      ReadValuesExact(fields[1..], b[n..]);
      LEofFromLE(b[..n]);
      var tail := ReadValues(fields[1..], b[n..]);
      var v := Value(fields[0], FromLE(b[..n]));
      assert ReadValues(fields, b).part == [v] + tail.part;
      ValuesBytesCons(v, tail.part);
      Assoc(b[..n], ValuesBytes(tail.part), tail.rest);
      TakeDrop(b, n);
    }
  }

  /** What reading establishes about a token. */
  predicate TokenOk(f: Formats, t: Token) {
    var def := DefinitionOf(f, t.token);
    && t.token < TWO_32 && 8 <= t.size < TWO_32 && t.title == TitleOf(def)
    && ValuesOk(t.values, TokenFields(def, t.size))
    && |TokenBytes(t)| == t.size + InlineSize(t.values)
  }

  predicate AllTokensOk(f: Formats, ts: seq<Token>) {
    ts == [] || (TokenOk(f, ts[0]) && AllTokensOk(f, ts[1..]))
  }

  lemma ReadTokenExact(f: Formats, b: seq<byte>)
    requires ReadToken(f, b).Parsed?
    ensures TokenOk(f, ReadToken(f, b).part) && TokenBytes(ReadToken(f, b).part) + ReadToken(f, b).rest == b
  {
    var r := ReadToken(f, b);
    var t := r.part;
    Pow256Sizes();
    LEofFromLE(b[..4]);
    LEofFromLE(b[4..8]);
    ReadValuesExact(TokenFields(DefinitionOf(f, t.token), t.size), b[8..]);
    var end := t.size + InlineSize(t.values);
    var used := 8 + |ValuesBytes(t.values)|;
    HeadSlices(b, ValuesBytes(t.values), used, end);
  }

  lemma HeadSlices(b: seq<byte>, values: seq<byte>, used: nat, end: nat)
    requires 8 <= used <= end <= |b| && used == 8 + |values| && values <= b[8..]
    ensures b[..4] + b[4..8] + values + b[used..end] == b[..end]
    ensures b[..end] + b[end..] == b
  {
    assert values == b[8..][..|values|] == b[8..used];
  }

  lemma {:induction false} ReadTokensExact(f: Formats, b: seq<byte>)
    requires ReadTokens(f, b).Some?
    ensures TokensBytes(ReadTokens(f, b).value) == b
    ensures AllTokensOk(f, ReadTokens(f, b).value)
    decreases |b|
  {
    if b != [] {
      ReadTokenExact(f, b);
      var first := ReadToken(f, b);
      ReadTokensExact(f, first.rest);
      assert ReadTokens(f, b).value == [first.part] + ReadTokens(f, first.rest).value;
      TokensCons(f, first.part, ReadTokens(f, first.rest).value);
    }
  }

  predicate TokensOk(f: Formats, ts: seq<Token>, size: nat) {
    |TokensBytes(ts)| == size && AllTokensOk(f, ts)
  }

  predicate KernelOk(f: Formats, k: Kernel) {
    && ValuesOk(k.header, f.kernelHeader)
    && |k.nameArea| == Lookup(k.header, "KernelNameSize") > 0
    && |k.kernelHeap| == Lookup(k.header, "KernelHeapSize")
    && |k.generalHeap| == Lookup(k.header, "GeneralStateHeapSize")
    && |k.dynamicHeap| == Lookup(k.header, "DynamicStateHeapSize")
    && |k.surfaceHeap| == Lookup(k.header, "SurfaceStateHeapSize")
    && TokensOk(f, k.tokens, Lookup(k.header, "PatchListSize"))
  }

  lemma ReadPatchListExact(f: Formats, size: nat, b: seq<byte>)
    requires ReadPatchList(f, size, b).Parsed?
    ensures TokensOk(f, ReadPatchList(f, size, b).part, size)
    ensures TokensBytes(ReadPatchList(f, size, b).part) + ReadPatchList(f, size, b).rest == b
  {
    var list := b[..size];
    ReadTokensExact(f, list);
    var ts := ReadTokens(f, list).value;
    assert ReadPatchList(f, size, b) == Parsed(ts, b[size..]);
    assert |TokensBytes(ts)| == size;
    TakeDrop(b, size);
  }

  lemma ReadKernelExact(f: Formats, b: seq<byte>)
    requires ReadKernel(f, b).Parsed?
    ensures KernelOk(f, ReadKernel(f, b).part) && KernelBytes(ReadKernel(f, b).part) + ReadKernel(f, b).rest == b
  {
    var r := ReadKernel(f, b);
    var k := r.part;
    ReadValuesExact(f.kernelHeader, b);
    var areas := ReadValues(f.kernelHeader, b).rest;
    CutAreasExact(k.header, areas);
    ReadPatchListExact(f, Lookup(k.header, "PatchListSize"), CutAreas(k.header, areas).rest);
    Assoc(ValuesBytes(k.header) + AreaBytes(k), TokensBytes(k.tokens), r.rest);
    Assoc(ValuesBytes(k.header), AreaBytes(k), TokensBytes(k.tokens) + r.rest);
  }

  lemma CutAreasExact(header: seq<Value>, b: seq<byte>)
    requires |b| >= AreaSize(header)
    ensures var a := CutAreas(header, b);
            a.name + a.kernelHeap + a.generalHeap + a.dynamicHeap + a.surfaceHeap + a.rest == b
  {
    var a := CutAreas(header, b);
    TakeDrop(b, |a.name|);
    var b1 := b[|a.name|..];
    TakeDrop(b1, |a.kernelHeap|);
    Assoc(a.name, a.kernelHeap, b1[|a.kernelHeap|..]);
    var b2 := b1[|a.kernelHeap|..];
    TakeDrop(b2, |a.generalHeap|);
    Assoc(a.name + a.kernelHeap, a.generalHeap, b2[|a.generalHeap|..]);
    var b3 := b2[|a.generalHeap|..];
    TakeDrop(b3, |a.dynamicHeap|);
    Assoc(a.name + a.kernelHeap + a.generalHeap, a.dynamicHeap, b3[|a.dynamicHeap|..]);
    var b4 := b3[|a.dynamicHeap|..];
    TakeDrop(b4, |a.surfaceHeap|);
    Assoc(a.name + a.kernelHeap + a.generalHeap + a.dynamicHeap, a.surfaceHeap, b4[|a.surfaceHeap|..]);
  }

  predicate KernelsOk(f: Formats, ks: seq<Kernel>) {
    forall i :: 0 <= i < |ks| ==> KernelOk(f, ks[i])
  }

  /** A reader whose items account for all bytes it uses up, and are good. */
  ghost predicate Exact<T(!new)>(read: seq<byte> -> Parsed<T>, bytes: T -> seq<byte>, good: T -> bool) {
    forall b :: read(b).Parsed? ==> good(read(b).part) && bytes(read(b).part) + read(b).rest == b
  }

  lemma {:induction false} ReadManyExact<T(!new)>(read: seq<byte> -> Parsed<T>, bytes: T -> seq<byte>,
      good: T -> bool, n: nat, b: seq<byte>)
    requires Exact(read, bytes, good) && ReadMany(read, n, b).Parsed?
    ensures var r := ReadMany(read, n, b);
      |r.part| == n && (forall i :: 0 <= i < n ==> good(r.part[i])) && BytesOf(bytes, r.part) + r.rest == b
  {
    if n > 0 {
      var first := read(b);
      var tail := ReadMany(read, n - 1, first.rest);
      ReadManyExact(read, bytes, good, n - 1, first.rest);
      assert ([first.part] + tail.part)[1..] == tail.part;
      Assoc(bytes(first.part), BytesOf(bytes, tail.part), tail.rest);
    }
  }

  lemma ReadKernelsExact(f: Formats, n: nat, b: seq<byte>)
    requires ReadKernels(f, n, b).Parsed?
    ensures var r := ReadKernels(f, n, b);
      |r.part| == n && KernelsOk(f, r.part) && KernelsBytes(r.part) + r.rest == b
  {
    var good := (k: Kernel) => KernelOk(f, k);
    assert Exact(KernelReader(f), KernelBytes, good) by {
      forall x: seq<byte> | KernelReader(f)(x).Parsed?
        ensures good(KernelReader(f)(x).part) && KernelBytes(KernelReader(f)(x).part) + KernelReader(f)(x).rest == x
      {
        ReadKernelExact(f, x);
      }
    }
    ReadManyExact(KernelReader(f), KernelBytes, good, n, b);
  }

  predicate ProgramOk(f: Formats, p: Program) {
    && ValuesOk(p.header, f.programHeader)
    && TokensOk(f, p.tokens, Lookup(p.header, "PatchListSize"))
    && |p.kernels| == Lookup(p.header, "NumberOfKernels") && KernelsOk(f, p.kernels)
  }

  /** Reading a program accounts for every byte up to where it stops. */
  lemma ReadProgramExact(f: Formats, b: seq<byte>)
    requires ReadProgram(f, b).Parsed?
    ensures ProgramOk(f, ReadProgram(f, b).part) && ProgramBytes(ReadProgram(f, b).part) + ReadProgram(f, b).rest == b
  {
    var r := ReadProgram(f, b);
    ReadValuesExact(f.programHeader, b);
    var lists := ReadValues(f.programHeader, b).rest;
    ReadPatchListExact(f, Lookup(r.part.header, "PatchListSize"), lists);
    var kernels := ReadPatchList(f, Lookup(r.part.header, "PatchListSize"), lists).rest;
    ReadKernelsExact(f, Lookup(r.part.header, "NumberOfKernels"), kernels);
    var header, tokens, rest := ValuesBytes(r.part.header), TokensBytes(r.part.tokens), KernelsBytes(r.part.kernels);
    Assoc(header, tokens, rest);
    Assoc(header, tokens + rest, r.rest);
    Assoc(tokens, rest, r.rest);
  }

  // ----- whatever is well formed is read --------------------------------------------------

  lemma HeadOf<T>(a: seq<T>, b: seq<T>)
    ensures (a + b)[..|a|] == a && (a + b)[|a|..] == b
  {
  }

  lemma {:induction false} ReadValuesBack(vs: seq<Value>, fields: seq<Field>, rest: seq<byte>)
    requires ValuesOk(vs, fields)
    ensures ReadValues(fields, ValuesBytes(vs) + rest) == Parsed(vs, rest)
  {
    if vs == [] {
      assert ValuesBytes(vs) + rest == rest;
    } else {
      var front, tail := LE(vs[0].value, vs[0].field.size), ValuesBytes(vs[1..]) + rest;
      Assoc(front, ValuesBytes(vs[1..]), rest);
      HeadOf(front, tail);
      FromLEofLE(vs[0].value, vs[0].field.size);
      ReadValuesBack(vs[1..], fields[1..], rest);
      assert vs == [vs[0]] + vs[1..] && vs[0] == Value(fields[0], vs[0].value);
    }
  }

  lemma TokenSlices(token: seq<byte>, size: seq<byte>, values: seq<byte>, hex: seq<byte>, rest: seq<byte>)
    requires |token| == |size| == 4
    ensures var b, used := token + size + values + hex + rest, 8 + |values|;
      b[..4] == token && b[4..8] == size && b[8..] == values + (hex + rest) && |b| == used + |hex| + |rest|
      && b[used..used + |hex|] == hex && b[used + |hex|..] == rest
  {
    var b := token + size + values + hex + rest;
    assert b[8..] == values + (hex + rest);
  }

  lemma ReadTokenBack(f: Formats, t: Token, rest: seq<byte>)
    requires TokenOk(f, t)
    ensures ReadToken(f, TokenBytes(t) + rest) == Parsed(t, rest)
  {
    var def := DefinitionOf(f, t.token);
    TokenSlices(LE(t.token, 4), LE(t.size, 4), ValuesBytes(t.values), t.hex, rest);
    Pow256Sizes();
    FromLEofLE(t.token, 4);
    FromLEofLE(t.size, 4);
    ReadValuesBack(t.values, TokenFields(def, t.size), t.hex + rest);
  }

  lemma {:induction false} ReadTokensBack(f: Formats, ts: seq<Token>)
    requires AllTokensOk(f, ts)
    ensures ReadTokens(f, TokensBytes(ts)) == Some(ts)
  {
    if ts != [] {
      ReadTokenBack(f, ts[0], TokensBytes(ts[1..]));
      ReadTokensBack(f, ts[1..]);
      assert |TokenBytes(ts[0])| >= 8 && ts == [ts[0]] + ts[1..];
    }
  }

  lemma ReadPatchListBack(f: Formats, ts: seq<Token>, size: nat, rest: seq<byte>)
    requires TokensOk(f, ts, size)
    ensures ReadPatchList(f, size, TokensBytes(ts) + rest) == Parsed(ts, rest)
  {
    HeadOf(TokensBytes(ts), rest);
    ReadTokensBack(f, ts);
  }

  lemma CutAreasBack(k: Kernel, b: seq<byte>, rest: seq<byte>)
    requires b == AreaBytes(k) + rest && |k.nameArea| == Lookup(k.header, "KernelNameSize")
    requires |k.kernelHeap| == Lookup(k.header, "KernelHeapSize")
    requires |k.generalHeap| == Lookup(k.header, "GeneralStateHeapSize")
    requires |k.dynamicHeap| == Lookup(k.header, "DynamicStateHeapSize")
    requires |k.surfaceHeap| == Lookup(k.header, "SurfaceStateHeapSize")
    ensures |b| >= AreaSize(k.header)
    ensures CutAreas(k.header, b)
      == Areas(k.nameArea, k.kernelHeap, k.generalHeap, k.dynamicHeap, k.surfaceHeap, rest)
  {
    var b4 := k.surfaceHeap + rest;
    var b3 := k.dynamicHeap + b4;
    var b2 := k.generalHeap + b3;
    var b1 := k.kernelHeap + b2;
    Assoc(k.nameArea + k.kernelHeap + k.generalHeap + k.dynamicHeap, k.surfaceHeap, rest);
    Assoc(k.nameArea + k.kernelHeap + k.generalHeap, k.dynamicHeap, b4);
    Assoc(k.nameArea + k.kernelHeap, k.generalHeap, b3);
    Assoc(k.nameArea, k.kernelHeap, b2);
    HeadOf(k.nameArea, b1);
    HeadOf(k.kernelHeap, b2);
    HeadOf(k.generalHeap, b3);
    HeadOf(k.dynamicHeap, b4);
    HeadOf(k.surfaceHeap, rest);
  }

  lemma ReadKernelBack(f: Formats, k: Kernel, rest: seq<byte>)
    requires KernelOk(f, k)
    ensures ReadKernel(f, KernelBytes(k) + rest) == Parsed(k, rest)
  {
    var list := TokensBytes(k.tokens) + rest;
    Assoc(ValuesBytes(k.header) + AreaBytes(k), TokensBytes(k.tokens), rest);
    Assoc(ValuesBytes(k.header), AreaBytes(k), list);
    ReadValuesBack(k.header, f.kernelHeader, AreaBytes(k) + list);
    CutAreasBack(k, AreaBytes(k) + list, list);
    ReadPatchListBack(f, k.tokens, Lookup(k.header, "PatchListSize"), rest);
  }

  /** A reader that reads every good item back, whatever follows it. */
  ghost predicate Complete<T(!new)>(read: seq<byte> -> Parsed<T>, bytes: T -> seq<byte>, good: T -> bool) {
    forall x, rest :: good(x) ==> read(bytes(x) + rest) == Parsed(x, rest)
  }

  lemma {:induction false} ReadManyBack<T(!new)>(read: seq<byte> -> Parsed<T>, bytes: T -> seq<byte>,
      good: T -> bool, items: seq<T>, rest: seq<byte>)
    requires Complete(read, bytes, good) && forall i :: 0 <= i < |items| ==> good(items[i])
    ensures ReadMany(read, |items|, BytesOf(bytes, items) + rest) == Parsed(items, rest)
    decreases |items|
  {
    if items == [] {
      assert BytesOf(bytes, items) + rest == rest;
    } else {
      Assoc(bytes(items[0]), BytesOf(bytes, items[1..]), rest);
      ReadManyBack(read, bytes, good, items[1..], rest);
      assert items == [items[0]] + items[1..];
    }
  }

  lemma ReadKernelsBack(f: Formats, ks: seq<Kernel>, rest: seq<byte>)
    requires KernelsOk(f, ks)
    ensures ReadKernels(f, |ks|, KernelsBytes(ks) + rest) == Parsed(ks, rest)
  {
    var good := (k: Kernel) => KernelOk(f, k);
    assert Complete(KernelReader(f), KernelBytes, good) by {
      forall k, tail | good(k) ensures KernelReader(f)(KernelBytes(k) + tail) == Parsed(k, tail) {
        ReadKernelBack(f, k, tail);
      }
    }
    ReadManyBack(KernelReader(f), KernelBytes, good, ks, rest);
  }

  /** Every well-formed program is read back from its bytes, whatever follows them. */
  lemma ReadProgramBack(f: Formats, p: Program, rest: seq<byte>)
    requires ProgramOk(f, p)
    ensures ReadProgram(f, ProgramBytes(p) + rest) == Parsed(p, rest)
  {
    var header, list, kernels := ValuesBytes(p.header), TokensBytes(p.tokens), KernelsBytes(p.kernels);
    Assoc(header + list, kernels, rest);
    Assoc(header, list, kernels + rest);
    ReadValuesBack(p.header, f.programHeader, list + (kernels + rest));
    ReadPatchListBack(f, p.tokens, Lookup(p.header, "PatchListSize"), kernels + rest);
    ReadKernelsBack(f, p.kernels, rest);
  }

  // ----- which fields can be read ---------------------------------------------------------

  /** Fields are read if their sizes are 1, 2, 4 or 8 and there are bytes for all of them. */
  lemma {:induction false} ReadValuesIff(fields: seq<Field>, b: seq<byte>)
    ensures ReadValues(fields, b).Parsed? <==>
      FieldsSize(fields) <= |b| && forall i :: 0 <= i < |fields| ==> fields[i].size in {1, 2, 4, 8}
  {
    if fields != [] && fields[0].size <= |b| {
      ReadValuesIff(fields[1..], b[fields[0].size..]);
      assert fields == [fields[0]] + fields[1..];
    }
  }

  // ----- where the parts of a kernel are --------------------------------------------------

  /** The name and the heaps of a kernel are as long as its header says, and the name is not empty. */
  lemma ReadKernelSizes(f: Formats, b: seq<byte>)
    requires ReadKernel(f, b).Parsed?
    ensures var k := ReadKernel(f, b).part;
      && |k.nameArea| == Lookup(k.header, "KernelNameSize") > 0
      && |k.kernelHeap| == Lookup(k.header, "KernelHeapSize")
      && |k.generalHeap| == Lookup(k.header, "GeneralStateHeapSize")
      && |k.dynamicHeap| == Lookup(k.header, "DynamicStateHeapSize")
      && |k.surfaceHeap| == Lookup(k.header, "SurfaceStateHeapSize")
      && |TokensBytes(k.tokens)| == Lookup(k.header, "PatchListSize")
  {
    ReadKernelExact(f, b);
  }

  /** They follow its header in this order: name, kernel heap, general, dynamic and surface state heap, patch list. */
  lemma ReadKernelParts(f: Formats, b: seq<byte>)
    requires ReadKernel(f, b).Parsed?
    ensures var k := ReadKernel(f, b).part;
      InOrder(ValuesBytes(k.header), k.nameArea, k.kernelHeap, k.generalHeap, k.dynamicHeap, k.surfaceHeap,
              TokensBytes(k.tokens), ReadKernel(f, b).rest, b)
  {
    var k, rest := ReadKernel(f, b).part, ReadKernel(f, b).rest;
    ReadKernelExact(f, b);
    SevenParts(ValuesBytes(k.header), k.nameArea, k.kernelHeap, k.generalHeap, k.dynamicHeap, k.surfaceHeap,
               TokensBytes(k.tokens), rest, b);
  }

  /** Eight slices of b, one behind the other. */
  predicate InOrder(h: seq<byte>, n: seq<byte>, k: seq<byte>, g: seq<byte>, d: seq<byte>, s: seq<byte>, l: seq<byte>,
      rest: seq<byte>, b: seq<byte>)
  {
    var i1 := |h| + |n|;
    var i2 := i1 + |k|;
    var i3 := i2 + |g|;
    var i4 := i3 + |d|;
    var i5 := i4 + |s|;
    var i6 := i5 + |l|;
    && i6 <= |b| && h == b[..|h|] && n == b[|h|..i1] && k == b[i1..i2] && g == b[i2..i3] && d == b[i3..i4]
    && s == b[i4..i5] && l == b[i5..i6] && rest == b[i6..]
  }

  lemma SevenParts(h: seq<byte>, n: seq<byte>, k: seq<byte>, g: seq<byte>, d: seq<byte>, s: seq<byte>, l: seq<byte>,
      rest: seq<byte>, b: seq<byte>)
    requires b == h + (n + k + g + d + s) + l + rest
    ensures InOrder(h, n, k, g, d, s, l, rest, b)
  {
    SlicesOf(h, n + k + g + d + s + l + rest);
    assert b == h + (n + k + g + d + s + l + rest);
    assert b == h + n + (k + g + d + s + l + rest);
    assert b == h + n + k + (g + d + s + l + rest);
    assert b == h + n + k + g + (d + s + l + rest);
    assert b == h + n + k + g + d + (s + l + rest);
    assert b == h + n + k + g + d + s + (l + rest);
    assert b == h + n + k + g + d + s + l + rest;
    Between(h, n, k + g + d + s + l + rest, b);
    Between(h + n, k, g + d + s + l + rest, b);
    Between(h + n + k, g, d + s + l + rest, b);
    Between(h + n + k + g, d, s + l + rest, b);
    Between(h + n + k + g + d, s, l + rest, b);
    Between(h + n + k + g + d + s, l, rest, b);
  }

  lemma SlicesOf(a: seq<byte>, b: seq<byte>)
    ensures (a + b)[..|a|] == a
  {
  }

  lemma Between(a: seq<byte>, x: seq<byte>, c: seq<byte>, b: seq<byte>)
    requires b == a + x + c
    ensures |a| + |x| <= |b| && b[|a|..|a| + |x|] == x && b[|a| + |x|..] == c
  {
  }

  // ----- which fields a token has ---------------------------------------------------------

  function FieldsSize(fields: seq<Field>): nat {
    if fields == [] then 0 else fields[0].size + FieldsSize(fields[1..])
  }

  /** The longest list of first fields that lies within the room. */
  lemma {:induction false} FittingFieldsAre(fields: seq<Field>, room: nat)
    ensures var r := FittingFields(fields, room);
      && |r| <= |fields| && r == fields[..|r|] && FieldsSize(r) <= room
      && (|r| < |fields| ==> FieldsSize(r) + fields[|r|].size > room)
  {
    if fields != [] && fields[0].size <= room {
      var tail := FittingFields(fields[1..], room - fields[0].size);
      FittingFieldsAre(fields[1..], room - fields[0].size);
      assert ([fields[0]] + tail)[1..] == tail && fields == [fields[0]] + fields[1..];
    }
  }

  lemma {:induction false} ValuesSize(vs: seq<Value>, fields: seq<Field>)
    requires ValuesOk(vs, fields)
    ensures |ValuesBytes(vs)| == FieldsSize(fields)
  {
    if vs != [] { ValuesSize(vs[1..], fields[1..]); }
  }

  /** A token of known key has the first fields of its definition that lie within its size, and no others. */
  lemma ReadTokenFields(f: Formats, b: seq<byte>)
    requires ReadToken(f, b).Parsed?
    ensures var t := ReadToken(f, b).part;
      && 8 + |ValuesBytes(t.values)| <= t.size && (t.token % 256 !in f.patchTokens ==> t.values == [] && t.title == None)
      && (t.token % 256 in f.patchTokens ==>
        var def, n := f.patchTokens[t.token % 256], |t.values|;
        && t.title == Some(def.name) && n <= |def.fields| && 8 + FieldsSize(def.fields[..n]) <= t.size
        && (n < |def.fields| ==> 8 + FieldsSize(def.fields[..n]) + def.fields[n].size > t.size)
        && forall i :: 0 <= i < n ==> t.values[i].field == def.fields[i])
  {
    ReadTokenExact(f, b);
    var t := ReadToken(f, b).part;
    var def := DefinitionOf(f, t.token);
    ValuesSize(t.values, TokenFields(def, t.size));
    if def.Some? { FittingFieldsAre(def.value.fields, t.size - 8); }
  }

  // ----- where a token ends ---------------------------------------------------------------

  lemma {:induction false} NoInlineData(vs: seq<Value>)
    requires forall k :: 0 <= k < |vs| ==> vs[k].field.name != "InlineDataSize"
    ensures InlineSize(vs) == 0
  {
    if vs != [] { NoInlineData(vs[1..]); }
  }

  lemma {:induction false} OneInlineField(vs: seq<Value>, i: nat)
    requires i < |vs| && vs[i].field.name == "InlineDataSize"
    requires forall k :: 0 <= k < |vs| && k != i ==> vs[k].field.name != "InlineDataSize"
    ensures InlineSize(vs) == vs[i].value
  {
    if i == 0 {
      NoInlineData(vs[1..]);
    } else {
      OneInlineField(vs[1..], i - 1);
    }
  }

  lemma ReadTokenEnd(f: Formats, b: seq<byte>)
    requires ReadToken(f, b).Parsed?
    ensures var t, end := ReadToken(f, b).part, ReadToken(f, b).part.size + InlineSize(ReadToken(f, b).part.values);
      && 8 <= t.size == FromLE(b[4..8]) && t.token == FromLE(b[..4]) && end <= |b| && ReadToken(f, b).rest == b[end..]
      && TokenBytes(t) == b[..end] && |TokenBytes(t)| == end && t.hex == b[end - |t.hex|..end]
  {
    ReadTokenExact(f, b);
    var t, end := ReadToken(f, b).part, ReadToken(f, b).part.size + InlineSize(ReadToken(f, b).part.values);
    HeadOf(TokenBytes(t), b[end..]);
    TailOf(b[..end], LE(t.token, 4) + LE(t.size, 4) + ValuesBytes(t.values), t.hex);
    assert b[..end][end - |t.hex|..] == b[end - |t.hex|..end];
  }

  lemma TailOf<T>(s: seq<T>, a: seq<T>, b: seq<T>)
    requires s == a + b
    ensures |b| <= |s| && s[|s| - |b|..] == b
  {
  }

  /** A token without a field for inline data is as long as its size says. */
  lemma PlainTokenEnds(f: Formats, b: seq<byte>)
    requires ReadToken(f, b).Parsed?
    requires var vs := ReadToken(f, b).part.values; forall k :: 0 <= k < |vs| ==> vs[k].field.name != "InlineDataSize"
    ensures var t := ReadToken(f, b).part;
      |TokenBytes(t)| == t.size == FromLE(b[4..8]) <= |b| && ReadToken(f, b).rest == b[t.size..]
  {
    ReadTokenEnd(f, b);
    NoInlineData(ReadToken(f, b).part.values);
  }

  /** A token with one such field is longer by its value, and its rest ends with the inline data. */
  lemma InlineTokenEnds(f: Formats, b: seq<byte>, i: nat)
    requires ReadToken(f, b).Parsed? && i < |ReadToken(f, b).part.values|
    requires var vs := ReadToken(f, b).part.values;
      forall k :: 0 <= k < |vs| ==> (vs[k].field.name == "InlineDataSize" <==> k == i)
    ensures var t, n := ReadToken(f, b).part, ReadToken(f, b).part.values[i].value;
      && |TokenBytes(t)| == t.size + n <= |b| && ReadToken(f, b).rest == b[t.size + n..]
      && n <= |t.hex| && t.hex[|t.hex| - n..] == b[t.size..t.size + n]
  {
    var t := ReadToken(f, b).part;
    ReadTokenEnd(f, b);
    ReadTokenFields(f, b);
    OneInlineField(t.values, i);
    var n, end := t.values[i].value, t.size + t.values[i].value;
    assert |t.hex| == end - 8 - |ValuesBytes(t.values)|;
    assert b[end - |t.hex|..end][|t.hex| - n..] == b[t.size..end];
  }

  // ----- a list with inline data ----------------------------------------------------------

  lemma SmallNumber(n: byte)
    ensures FromLE([n, 0, 0, 0]) == n && LE(n, 4) == [n, 0, 0, 0]
  {
    assert [n, 0, 0, 0][1..] == [0, 0, 0] && [0, 0, 0][1..] == [0, 0] && [0, 0][1..] == [0] && [0][1..] == [];
    assert FromLE([]) == 0 && FromLE([0]) == 0 && FromLE([0, 0]) == 0 && FromLE([0, 0, 0]) == 0;
    LEofFromLE([n, 0, 0, 0]);
  }

  const INLINE_FORMATS: Formats := Formats([], [], map[5 := TokenDef("PATCH_TOKEN_X", [Field(4, "InlineDataSize")])])
  const INLINE_TOKEN: Token :=
    Token(Some("PATCH_TOKEN_X"), 5, 12, [Value(Field(4, "InlineDataSize"), 4)], [1, 2, 3, 4])
  const NEXT_TOKEN: Token := Token(None, 9, 8, [], [])

  lemma InlineTokensOk()
    ensures AllTokensOk(INLINE_FORMATS, [INLINE_TOKEN, NEXT_TOKEN])
  {
    Pow256Sizes();
    var field := Field(4, "InlineDataSize");
    assert [field][1..] == [] && FittingFields([field], 4) == [field];
    OneInlineField(INLINE_TOKEN.values, 0);
    ValuesBytesOne(INLINE_TOKEN.values[0]);
    assert [INLINE_TOKEN, NEXT_TOKEN][1..] == [NEXT_TOKEN] && [NEXT_TOKEN][1..] == [];
  }

  lemma ValuesBytesOne(v: Value)
    ensures ValuesBytes([v]) == LE(v.value, v.field.size)
  {
    ValuesBytesCons(v, []);
    assert [v] + [] == [v] && LE(v.value, v.field.size) + [] == LE(v.value, v.field.size);
  }

  lemma InlineListBytes()
    ensures TokensBytes([INLINE_TOKEN, NEXT_TOKEN])
      == [5, 0, 0, 0] + [12, 0, 0, 0] + [4, 0, 0, 0] + [1, 2, 3, 4] + ([9, 0, 0, 0] + [8, 0, 0, 0])
  {
    var none: seq<byte> := [];
    ValuesBytesOne(INLINE_TOKEN.values[0]);
    SmallNumber(5);
    SmallNumber(12);
    SmallNumber(4);
    SmallNumber(9);
    SmallNumber(8);
    assert [INLINE_TOKEN, NEXT_TOKEN][1..] == [NEXT_TOKEN] && [NEXT_TOKEN][1..] == [];
    assert TokenBytes(NEXT_TOKEN) == [9, 0, 0, 0] + [8, 0, 0, 0] + none + none;
    assert TokensBytes([NEXT_TOKEN]) == TokenBytes(NEXT_TOKEN) + none;
    assert [9, 0, 0, 0] + [8, 0, 0, 0] + none + none + none == [9, 0, 0, 0] + [8, 0, 0, 0];
  }

  /** Four bytes of inline data go with the token before them, and the next token starts behind them. */
  lemma InlineListRead()
    ensures ReadTokens(INLINE_FORMATS, [5, 0, 0, 0] + [12, 0, 0, 0] + [4, 0, 0, 0] + [1, 2, 3, 4] + ([9, 0, 0, 0] + [8, 0, 0, 0]))
      == Some([INLINE_TOKEN, NEXT_TOKEN])
  {
    InlineTokensOk();
    InlineListBytes();
    ReadTokensBack(INLINE_FORMATS, [INLINE_TOKEN, NEXT_TOKEN]);
  }
}

/** The disassembler: one pass over a device binary that prints it and dumps its heaps. */
module BinaryDecoder {
  import opened Bytes
  import opened Text
  import opened PatchBinary
  import opened PatchText

  // ----- gluing what was read to what is still to be read ----------------------------------

  ghost function Glue<T>(done: seq<T>, tail: Parsed<seq<T>>): Parsed<seq<T>> {
    if tail.Malformed? then Malformed else Parsed(done + tail.part, tail.rest)
  }

  lemma GlueStart<T>(tail: Parsed<seq<T>>)
    ensures Glue([], tail) == tail
  {
    if tail.Parsed? { assert [] + tail.part == tail.part; }
  }

  lemma GlueStep<T>(done: seq<T>, x: T, tail: Parsed<seq<T>>)
    ensures Glue(done + [x], tail) == Glue(done, Glue([x], tail))
  {
    if tail.Parsed? { Assoc(done, [x], tail.part); }
  }

  /** Reading one more field moves it from what is still to be read to what was read. */
  lemma FieldStep(whole: Parsed<seq<Value>>, vs: seq<Value>, fields: seq<Field>, rest: seq<Field>, before: seq<byte>)
    requires fields != [] && rest == fields[1..]
    requires whole == Glue(vs, ReadValues(fields, before))
    ensures !ValidSize(fields[0].size) || |before| < fields[0].size ==> whole.Malformed?
    ensures ValidSize(fields[0].size) && |before| >= fields[0].size ==>
      var n := fields[0].size;
      whole == Glue(vs + [Value(fields[0], FromLE(before[..n]))], ReadValues(rest, before[n..]))
  {
    var n := fields[0].size;
    if ValidSize(n) && |before| >= n {
      GlueStep(vs, Value(fields[0], FromLE(before[..n])), ReadValues(rest, before[n..]));
    }
  }

  lemma FittingStep(fields: seq<Field>, n: nat, room: nat)
    requires n < |fields|
    ensures fields[..n] + FittingFields(fields[n..], room) ==
      if fields[n].size > room then fields[..n]
      else fields[..n + 1] + FittingFields(fields[n + 1..], room - fields[n].size)
  {
    assert fields[n..][0] == fields[n] && fields[n..][1..] == fields[n + 1..];
    if fields[n].size <= room {
      Assoc(fields[..n], [fields[n]], FittingFields(fields[n + 1..], room - fields[n].size));
      assert fields[..n + 1] == fields[..n] + [fields[n]];
    }
  }

  function TokenFrom(f: Formats, b: seq<byte>, vs: seq<Value>, used: nat, end: nat): Token
    requires 8 <= |b| && used <= end <= |b|
  {
    var token := FromLE(b[..4]);
    Token(TitleOf(DefinitionOf(f, token)), token, FromLE(b[4..8]), vs, b[used..end])
  }

  lemma ReadTokenParts(f: Formats, b: seq<byte>, size: nat, vs: seq<Value>, tail: seq<byte>)
    requires |b| >= 8 && 8 <= size == FromLE(b[4..8])
    requires ReadValues(TokenFields(DefinitionOf(f, FromLE(b[..4])), size), b[8..]) == Parsed(vs, tail)
    ensures var used, end := |b| - |tail|, size + InlineSize(vs);
      ReadToken(f, b) == if used <= end <= |b| then Parsed(TokenFrom(f, b, vs, used, end), b[end..]) else Malformed
  {
  }

  lemma ReadTokenFails(f: Formats, b: seq<byte>, size: nat)
    requires |b| >= 8 && size == FromLE(b[4..8])
    requires size < 8 || ReadValues(TokenFields(DefinitionOf(f, FromLE(b[..4])), size), b[8..]).Malformed?
    ensures ReadToken(f, b).Malformed?
  {
  }

  /**
   * The pointer the source passes by reference is the sequence of bytes from it on: a method takes
   * the bytes ahead of it and returns the rest. The text goes to a stream of finished lines.
   */
  class BinaryDecoder {
    const formats: Formats
    var ptmFile: seq<string>
    var dump: Dump

    constructor (formats: Formats)
      ensures this.formats == formats && ptmFile == [] && dump == map[]
    {
      this.formats := formats;
      ptmFile, dump := [], map[];
    }

    method PrintLine(line: string)
      modifies this`ptmFile
      ensures ptmFile == old(ptmFile) + [line]
    {
      ptmFile := ptmFile + [line];
    }

    /** Print one field and step over it; an unknown size or a missing byte ends the run. */
    method DumpField(field: Field, b: seq<byte>) returns (ok: bool, v: Value, rest: seq<byte>)
      modifies this`ptmFile
      ensures ok == (ValidSize(field.size) && |b| >= field.size)
      ensures ok ==> v == Value(field, FromLE(b[..field.size])) && rest == b[field.size..]
      ensures ok ==> ptmFile == old(ptmFile) + [FieldLine(v)]
    {
      ok, v, rest := false, Value(field, 0), b;
      if ValidSize(field.size) && |b| >= field.size {
        ok, v, rest := true, Value(field, FromLE(b[..field.size])), b[field.size..];
        PrintLine("\t" + Show(field.size, 10) + " " + field.name + " " + Show(v.value, 10));
      }
    }

    /** A run of fields, as in the two headers. */
    method DumpFields(fields: seq<Field>, b: seq<byte>) returns (ok: bool, vs: seq<Value>, rest: seq<byte>)
      modifies this`ptmFile
      ensures ReadValues(fields, b) == if ok then Parsed(vs, rest) else Malformed
      ensures ok ==> ptmFile == old(ptmFile) + ValuesLines(vs)
    {
      vs, rest := [], b;
      ghost var whole, text := ReadValues(fields, b), ptmFile;
      GlueStart(whole);
      assert fields[0..] == fields;
      for i := 0 to |fields|
        invariant whole == Glue(vs, ReadValues(fields[i..], rest))
        invariant ptmFile == text + ValuesLines(vs)
      {
        FieldStep(whole, vs, fields[i..], fields[i + 1..], rest);
        var v;
        ok, v, rest := DumpField(fields[i], rest);
        if !ok {
          return;
        }
        ValuesLinesSnoc(text, vs, v);
        vs := vs + [v];
      }
      ok := true;
      assert fields[|fields|..] == [];
      GlueEnd(vs, rest);
    }

    /** How many fields of a token its size covers: the break of the field loop. */
    static method CountFittingFields(fields: seq<Field>, room: nat) returns (n: nat)
      ensures n <= |fields| && fields[..n] == FittingFields(fields, room)
    {
      n := 0;
      var fieldsSize := 0;
      while n < |fields|
        invariant n <= |fields| && fieldsSize <= room
        invariant FittingFields(fields, room) == fields[..n] + FittingFields(fields[n..], room - fieldsSize)
      {
        FittingStep(fields, n, room - fieldsSize);
        fieldsSize := fieldsSize + fields[n].size;
        if fieldsSize > room {
          return;
        }
        n := n + 1;
      }
    }

    /** The inline data the fields of a token announce. */
    static method AddInlineSizes(vs: seq<Value>) returns (inline: nat)
      ensures inline == InlineSize(vs)
    {
      inline := 0;
      for i := 0 to |vs|
        invariant inline + InlineSize(vs[i..]) == InlineSize(vs)
      {
        assert vs[i..][1..] == vs[i + 1..];
        if vs[i].field.name == "InlineDataSize" {
          inline := inline + vs[i].value;
        }
      }
      assert vs[|vs|..] == [];
    }

    method DumpTokenHead(title: Option<string>, token: nat, size: nat)
      modifies this`ptmFile
      ensures ptmFile == old(ptmFile) + FrontLines(title, token, size, [])
    {
      assert Show(4, 10) == "4";
      PrintLine(TitleLine(title));
      PrintLine("\t" + "4" + " " + "Token" + " " + Show(token, 10));
      PrintLine("\t" + "4" + " " + "Size" + " " + Show(size, 10));
    }

    /** The title of a token, its two numbers and its fields. */
    method DumpTokenFront(b: seq<byte>) returns (ok: bool, token: nat, size: nat, vs: seq<Value>, rest: seq<byte>)
      requires |b| >= 8
      modifies this`ptmFile
      ensures token == FromLE(b[..4]) && size == FromLE(b[4..8])
      ensures var def := DefinitionOf(formats, token);
        && (ok ==> size >= 8 && ReadValues(TokenFields(def, size), b[8..]) == Parsed(vs, rest))
        && (!ok ==> size < 8 || ReadValues(TokenFields(def, size), b[8..]).Malformed?)
        && (ok ==> ptmFile == old(ptmFile) + FrontLines(TitleOf(def), token, size, vs))
    {
      token, size := FromLE(b[..4]), FromLE(b[4..8]);
      ok, vs, rest := false, [], b[8..];
      var def := DefinitionOf(formats, token);
      DumpTokenHead(TitleOf(def), token, size);
      if size >= 8 {
        var fields := if def.Some? then def.value.fields else [];
        var n := CountFittingFields(fields, size - 8);
        ok, vs, rest := DumpFields(fields[..n], b[8..]);
        FrontText(old(ptmFile), TitleOf(def), token, size, vs);
      }
    }

    /** What no field of a token accounts for is printed as one line of hexadecimals. */
    method DumpRest(hex: seq<byte>)
      modifies this`ptmFile
      ensures ptmFile == old(ptmFile) + RestLines(hex)
    {
      if hex != [] {
        DumpHex(hex);
      }
    }

    /** The end of a token, with its inline data: the bytes up to there that are not printed yet. */
    method DumpTokenEnd(b: seq<byte>, size: nat, vs: seq<Value>, tail: seq<byte>) returns (ok: bool, t: Token, rest: seq<byte>)
      requires |b| >= 8 && 8 <= size == FromLE(b[4..8])
      requires ReadValues(TokenFields(DefinitionOf(formats, FromLE(b[..4])), size), b[8..]) == Parsed(vs, tail)
      modifies this`ptmFile
      ensures ReadToken(formats, b) == if ok then Parsed(t, rest) else Malformed
      ensures ok ==> t.title == TitleOf(DefinitionOf(formats, FromLE(b[..4]))) && t.token == FromLE(b[..4])
      ensures ok ==> t.size == size && t.values == vs && ptmFile == old(ptmFile) + RestLines(t.hex)
    {
      ok, t, rest := false, Token(None, 0, 0, [], []), b;
      var used := |b| - |tail|;
      var inline := AddInlineSizes(vs);
      var tokenEnd := size + inline;
      ReadTokenParts(formats, b, size, vs, tail);
      if used <= tokenEnd <= |b| {
        ok, t, rest := true, TokenFrom(formats, b, vs, used, tokenEnd), b[tokenEnd..];
        DumpRest(t.hex);
      }
    }

    /** One pass of the token loop. */
    method DumpToken(b: seq<byte>) returns (ok: bool, t: Token, rest: seq<byte>)
      modifies this`ptmFile
      ensures ReadToken(formats, b) == if ok then Parsed(t, rest) else Malformed
      ensures ok ==> ptmFile == old(ptmFile) + TokenLines(t)
    {
      ok, t, rest := false, Token(None, 0, 0, [], []), b;
      if |b| < 8 {
        return;
      }
      var front, token, size, vs, tail := DumpTokenFront(b);
      if !front {
        ReadTokenFails(formats, b, size);
        return;
      }
      ok, t, rest := DumpTokenEnd(b, size, vs, tail);
      TokenText(old(ptmFile), t);
    }

    method DumpHex(bytes: seq<byte>)
      modifies this`ptmFile
      ensures ptmFile == old(ptmFile) + [HexLine(bytes)]
    {
      var hex := "";
      for i := 0 to |bytes|
        invariant hex == HexBytes(bytes[..i]) && ptmFile == old(ptmFile)
      {
        hex := hex + " " + Show(bytes[i], 16);
        HexBytesSnoc(bytes[..i], bytes[i]);
        assert bytes[..i + 1] == bytes[..i] + [bytes[i]];
      }
      assert bytes[..|bytes|] == bytes;
      PrintLine("\tHex" + hex);
    }

    /** The token loop over the bytes of a patch list, which the tokens must use up exactly. */
    method DumpTokens(b: seq<byte>) returns (ok: bool, ts: seq<Token>)
      modifies this`ptmFile
      ensures ReadTokens(formats, b) == if ok then Some(ts) else None
      ensures ok ==> ptmFile == old(ptmFile) + TokensLines(ts)
    {
      ts := [];
      var rest := b;
      ghost var whole, text := ReadTokens(formats, b), ptmFile;
      if whole.Some? { assert [] + whole.value == whole.value; }
      while rest != []
        invariant whole == GlueTokens(ts, ReadTokens(formats, rest))
        invariant ptmFile == text + TokensLines(ts)
        decreases |rest|
      {
        TokenStep(formats, whole, ts, rest);
        var t;
        ok, t, rest := DumpToken(rest);
        if !ok {
          return;
        }
        TokensLinesSnoc(text, ts, t);
        ts := ts + [t];
      }
      assert ts + [] == ts;
      ok := true;
    }

    method ReadPatchTokens(size: nat, b: seq<byte>) returns (ok: bool, ts: seq<Token>, rest: seq<byte>)
      modifies this`ptmFile
      ensures ReadPatchList(formats, size, b) == if ok then Parsed(ts, rest) else Malformed
      ensures ok ==> ptmFile == old(ptmFile) + TokensLines(ts)
    {
      ok, ts, rest := false, [], b;
      if |b| >= size {
        ok, ts := DumpTokens(b[..size]);
        rest := b[size..];
      }
    }

    /** The name line and the heap files of a kernel, between its header and its patch list. */
    method DumpAreas(a: Areas)
      modifies this`ptmFile, this`dump
      ensures ptmFile == old(ptmFile) + [NameLine(a.name)]
      ensures dump == HeapFiles(old(dump), NameOf(a.name), a.kernelHeap, a.generalHeap, a.dynamicHeap, a.surfaceHeap)
    {
      var kernelName := NameOf(a.name);
      PrintLine("\tKernelName " + kernelName);
      dump := dump[KernelHeapFile(kernelName) := a.kernelHeap];
      if |a.generalHeap| != 0 {
        dump := dump[GeneralHeapFile(kernelName) := (a.generalHeap + a.dynamicHeap)[..|a.dynamicHeap|]];
      }
      dump := dump[DynamicHeapFile(kernelName) := a.dynamicHeap];
      dump := dump[SurfaceHeapFile(kernelName) := a.surfaceHeap];
    }

    method ProcessKernel(b: seq<byte>) returns (ok: bool, k: Kernel, rest: seq<byte>)
      modifies this
      ensures ReadKernel(formats, b) == if ok then Parsed(k, rest) else Malformed
      ensures ok ==> ptmFile == old(ptmFile) + KernelBody(k) && dump == KernelFiles(old(dump), k)
    {
      ghost var text := ptmFile;
      k := Kernel([], [], [], [], [], [], []);
      PrintLine("KernelBinaryHeader:");
      var header, heaps;
      ok, header, heaps := DumpFields(formats.kernelHeader, b);
      if !ok || Lookup(header, "KernelNameSize") == 0 || |heaps| < AreaSize(header) {
        return false, k, b;
      }
      var a := CutAreas(header, heaps);
      DumpAreas(a);
      var ts;
      ok, ts, rest := ReadPatchTokens(Lookup(header, "PatchListSize"), a.rest);
      if ok {
        k := KernelFrom(header, a, ts);
        KernelText(text, k);
      }
    }

    method ProcessNumberedKernel(i: nat, b: seq<byte>) returns (ok: bool, k: Kernel, rest: seq<byte>)
      modifies this
      ensures ReadKernel(formats, b) == if ok then Parsed(k, rest) else Malformed
      ensures ok ==> ptmFile == old(ptmFile) + KernelLines(i, k) && dump == KernelFiles(old(dump), k)
    {
      PrintLine("Kernel #" + Show(i, 10));
      ok, k, rest := ProcessKernel(b);
      Assoc(old(ptmFile), [KernelTitle(i)], KernelBody(k));
    }

    method ProcessKernels(n: nat, b: seq<byte>) returns (ok: bool, ks: seq<Kernel>, rest: seq<byte>)
      modifies this
      ensures ReadKernels(formats, n, b) == if ok then Parsed(ks, rest) else Malformed
      ensures ok ==> ptmFile == old(ptmFile) + KernelsLines(0, ks) && dump == ProgramFiles(old(dump), ks)
    {
      ghost var run := Run(KernelReader(formats), n, b, ptmFile, dump);
      ok, ks, rest := true, [], b;
      ghost var left: nat := n;
      StartRun(run);
      for i := 0 to n
        invariant |ks| == i && left == n - i && ok && Ran(run, ks, left, rest, ptmFile, dump)
      {
        ghost var done, was, before, text, files := ks, left, rest, ptmFile, dump;
        var k;
        ok, k, rest := ProcessNumberedKernel(i, rest);
        if !ok {
          RunStops(run, ks, left, before, text, files);
          return;
        }
        ks, left := ks + [k], left - 1;
        RunStep(run, done, was, before, text, files, k, ks, left, rest, ptmFile, dump);
      }
      RunEnds(run, ks, rest, ptmFile, dump);
    }

    method ProcessBinary(b: seq<byte>) returns (ok: bool, p: Program, rest: seq<byte>)
      modifies this
      ensures ReadProgram(formats, b) == if ok then Parsed(p, rest) else Malformed
      ensures ok ==> ptmFile == old(ptmFile) + ProgramLines(p) && dump == ProgramFiles(old(dump), p.kernels)
    {
      ghost var text := ptmFile;
      p := Program([], [], []);
      PrintLine("ProgramBinaryHeader:");
      var header;
      ok, header, rest := DumpFields(formats.programHeader, b);
      if !ok {
        return;
      }
      var ts;
      ok, ts, rest := ReadPatchTokens(Lookup(header, "PatchListSize"), rest);
      if !ok {
        return;
      }
      var ks;
      ok, ks, rest := ProcessKernels(Lookup(header, "NumberOfKernels"), rest);
      if ok {
        p := Program(header, ts, ks);
        ProgramText(text, p);
      }
    }
  }

  lemma TokenText(text: seq<string>, t: Token)
    ensures text + FrontLines(t.title, t.token, t.size, t.values) + RestLines(t.hex) == text + TokenLines(t)
  {
    Assoc(text, FrontLines(t.title, t.token, t.size, t.values), RestLines(t.hex));
  }

  lemma FrontText(text: seq<string>, title: Option<string>, token: nat, size: nat, vs: seq<Value>)
    ensures text + FrontLines(title, token, size, []) + ValuesLines(vs) == text + FrontLines(title, token, size, vs)
  {
    var head := [TitleLine(title), FieldLine(NumberValue("Token", token)), FieldLine(NumberValue("Size", size))];
    assert head + ValuesLines([]) == head;
    Assoc(text, head, ValuesLines(vs));
  }

  lemma ProgramText(text: seq<string>, p: Program)
    ensures text + ["ProgramBinaryHeader:"] + ValuesLines(p.header) + TokensLines(p.tokens) + KernelsLines(0, p.kernels)
            == text + ProgramLines(p)
  {
    AssocFour(text, ["ProgramBinaryHeader:"], ValuesLines(p.header), TokensLines(p.tokens), KernelsLines(0, p.kernels));
  }

  lemma ManyStep<T>(read: seq<byte> -> Parsed<T>, whole: Parsed<seq<T>>, done: seq<T>, n: nat, b: seq<byte>)
    requires n > 0 && whole == Glue(done, ReadMany(read, n, b))
    ensures read(b).Malformed? ==> whole.Malformed?
    ensures read(b).Parsed? ==> whole == Glue(done + [read(b).part], ReadMany(read, n - 1, read(b).rest))
  {
    if read(b).Parsed? {
      GlueStep(done, read(b).part, ReadMany(read, n - 1, read(b).rest));
    }
  }

  /** The loop over the kernels: what it reads, and where text and files stood before it. */
  datatype Run = Run(read: seq<byte> -> Parsed<Kernel>, n: nat, b: seq<byte>, text: seq<string>, files: Dump)

  /** The kernels ks were read and printed; left more are to come from rest. */
  ghost predicate Ran(r: Run, ks: seq<Kernel>, left: nat, rest: seq<byte>, text: seq<string>, files: Dump) {
    && ReadMany(r.read, r.n, r.b) == Glue(ks, ReadMany(r.read, left, rest))
    && text == r.text + KernelsLines(0, ks) && files == ProgramFiles(r.files, ks)
  }

  lemma StartRun(r: Run)
    ensures Ran(r, [], r.n, r.b, r.text, r.files)
  {
    GlueStart(ReadMany(r.read, r.n, r.b));
  }

  lemma RunStops(r: Run, ks: seq<Kernel>, left: nat, rest: seq<byte>, text: seq<string>, files: Dump)
    requires left > 0 && Ran(r, ks, left, rest, text, files) && r.read(rest).Malformed?
    ensures ReadMany(r.read, r.n, r.b).Malformed?
  {
  }

  lemma RunStep(r: Run, done: seq<Kernel>, was: nat, before: seq<byte>, text: seq<string>, files: Dump, k: Kernel,
                ks: seq<Kernel>, left: nat, rest: seq<byte>, newText: seq<string>, newFiles: Dump)
    requires was == left + 1 && Ran(r, done, was, before, text, files) && r.read(before) == Parsed(k, rest)
    requires ks == done + [k] && newText == text + KernelLines(|done|, k) && newFiles == KernelFiles(files, k)
    ensures Ran(r, ks, left, rest, newText, newFiles)
  {
    assert ReadMany(r.read, r.n, r.b) == Glue(ks, ReadMany(r.read, left, rest)) by {
      ManyStep(r.read, ReadMany(r.read, r.n, r.b), done, was, before);
    }
    assert newText == r.text + KernelsLines(0, ks) by { KernelsLinesSnoc(r.text, done, k); }
    assert newFiles == ProgramFiles(r.files, ks) by { ProgramFilesSnoc(r.files, done, k); }
  }

  lemma RunEnds(r: Run, ks: seq<Kernel>, rest: seq<byte>, text: seq<string>, files: Dump)
    requires Ran(r, ks, 0, rest, text, files)
    ensures ReadMany(r.read, r.n, r.b) == Parsed(ks, rest)
  {
    assert ks + [] == ks;
  }

  lemma KernelsLinesSnoc(text: seq<string>, ks: seq<Kernel>, k: Kernel)
    ensures text + KernelsLines(0, ks) + KernelLines(|ks|, k) == text + KernelsLines(0, ks + [k])
  {
    NumberedLast(KernelLines, 0, ks, k);
    Assoc(text, KernelsLines(0, ks), KernelLines(|ks|, k));
  }

  lemma {:induction false} NumberedLast<T>(lines: (nat, T) -> seq<string>, i: nat, items: seq<T>, x: T)
    ensures Numbered(lines, i, items + [x]) == Numbered(lines, i, items) + lines(i + |items|, x)
    decreases |items|
  {
    if items == [] {
      assert [] + [x] == [x];
      assert Numbered(lines, i, [x]) == lines(i, x) + Numbered(lines, i + 1, []);
    } else {
      assert (items + [x])[1..] == items[1..] + [x] && (items + [x])[0] == items[0];
      NumberedLast(lines, i + 1, items[1..], x);
      Assoc(lines(i, items[0]), Numbered(lines, i + 1, items[1..]), lines(i + |items|, x));
    }
  }

  lemma {:induction false} ProgramFilesSnoc(dump: Dump, ks: seq<Kernel>, k: Kernel)
    ensures ProgramFiles(dump, ks + [k]) == KernelFiles(ProgramFiles(dump, ks), k)
    decreases |ks|
  {
    if ks == [] {
      assert [] + [k] == [k] && [k][1..] == [];
    } else {
      assert (ks + [k])[1..] == ks[1..] + [k];
      ProgramFilesSnoc(KernelFiles(dump, ks[0]), ks[1..], k);
    }
  }

  lemma KernelText(text: seq<string>, k: Kernel)
    ensures text + ["KernelBinaryHeader:"] + ValuesLines(k.header) + [NameLine(k.nameArea)] + TokensLines(k.tokens)
            == text + KernelBody(k)
  {
    AssocFour(text, ["KernelBinaryHeader:"], ValuesLines(k.header), [NameLine(k.nameArea)], TokensLines(k.tokens));
  }

  // ----- the patch list -------------------------------------------------------------------

  ghost function GlueTokens(done: seq<Token>, tail: Option<seq<Token>>): Option<seq<Token>> {
    if tail.None? then None else Some(done + tail.value)
  }

  lemma TokenStep(f: Formats, whole: Option<seq<Token>>, ts: seq<Token>, b: seq<byte>)
    requires b != [] && whole == GlueTokens(ts, ReadTokens(f, b))
    ensures ReadToken(f, b).Malformed? ==> whole.None?
    ensures ReadToken(f, b).Parsed?
      ==> whole == GlueTokens(ts + [ReadToken(f, b).part], ReadTokens(f, ReadToken(f, b).rest))
  {
    if ReadToken(f, b).Parsed? {
      var tail := ReadTokens(f, ReadToken(f, b).rest);
      if tail.Some? { Assoc(ts, [ReadToken(f, b).part], tail.value); }
    }
  }

  lemma TokensLinesSnoc(text: seq<string>, ts: seq<Token>, t: Token)
    ensures text + TokensLines(ts + [t]) == text + TokensLines(ts) + TokenLines(t)
  {
    TokensLinesLast(ts, t);
    Assoc(text, TokensLines(ts), TokenLines(t));
  }

  lemma {:induction false} TokensLinesLast(ts: seq<Token>, t: Token)
    ensures TokensLines(ts + [t]) == TokensLines(ts) + TokenLines(t)
  {
    if ts == [] {
      assert [] + [t] == [t] && TokensLines([t]) == TokenLines(t) + TokensLines([]);
    } else {
      assert (ts + [t])[1..] == ts[1..] + [t];
      TokensLinesLast(ts[1..], t);
      Assoc(TokenLines(ts[0]), TokensLines(ts[1..]), TokenLines(t));
    }
  }

  lemma GlueEnd(vs: seq<Value>, b: seq<byte>)
    ensures Glue(vs, ReadValues([], b)) == Parsed(vs, b)
  {
    assert vs + [] == vs;
  }

  lemma {:induction false} HexBytesSnoc(b: seq<byte>, x: byte)
    ensures HexBytes(b + [x]) == HexBytes(b) + " " + Show(x, 16)
  {
    if b != [] {
      assert (b + [x])[1..] == b[1..] + [x];
      HexBytesSnoc(b[1..], x);
    }
  }

  lemma {:induction false} ValuesLinesAppend(a: seq<Value>, b: seq<Value>)
    ensures ValuesLines(a + b) == ValuesLines(a) + ValuesLines(b)
  {
    if a == [] {
      assert a + b == b;
    } else {
      assert (a + b)[1..] == a[1..] + b;
      ValuesLinesAppend(a[1..], b);
    }
  }

  lemma ValuesLinesSnoc(text: seq<string>, vs: seq<Value>, v: Value)
    ensures text + ValuesLines(vs + [v]) == text + ValuesLines(vs) + [FieldLine(v)]
  {
    ValuesLinesAppend(vs, [v]);
    assert ValuesLines([v]) == [FieldLine(v)];
    Assoc(text, ValuesLines(vs), [FieldLine(v)]);
  }
}

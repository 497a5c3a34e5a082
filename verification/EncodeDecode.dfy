/** From bytes to bytes: assembling what the disassembler made of a device binary. */
module EncodeDecode {
  import opened Arithmetic
  import opened Bytes
  import opened Text
  import opened PatchBinary
  import opened PatchText
  import opened BinaryEncoder
  import opened LineRoundTrip
  import opened SizeCorrection
  import opened ProgramCorrection
  import opened KernelRoundTrip
  import opened RoundTrip

  // ----- formats and names the text can carry ---------------------------------------------

  /**
   * Field and token names the text format can carry: words without the texts that select lines,
   * where only the size fields are named like sizes and only tokens like tokens.
   */
  ghost predicate PlainFormats(f: Formats) {
    && (forall i :: 0 <= i < |f.programHeader| ==> PlainName(f.programHeader[i].name) && PlainSizeField(f.programHeader[i]))
    && (forall i :: 0 <= i < |f.kernelHeader| ==> PlainName(f.kernelHeader[i].name) && PlainSizeField(f.kernelHeader[i])
                                                  && PlainNameField(f.kernelHeader[i]))
    && (forall t :: t in f.patchTokens ==> PlainDefinition(f.patchTokens[t]))
  }

  predicate PlainDefinition(def: TokenDef) {
    PlainTitle(def.name) && forall i :: 0 <= i < |def.fields| ==> PlainName(def.fields[i].name)
  }

  /** Kernel names the text can carry: on one line, and not taken for a size. */
  predicate PlainNames(ks: seq<Kernel>) {
    forall i :: 0 <= i < |ks| ==> PlainKernelName(ks[i].header, NameOf(ks[i].nameArea))
  }

  lemma HeaderPlain(vs: seq<Value>, fields: seq<Field>)
    requires ValuesOk(vs, fields)
    requires forall i :: 0 <= i < |fields| ==> PlainName(fields[i].name) && PlainSizeField(fields[i])
    ensures PlainHeader(vs)
  {
  }

  lemma ReadTokenPlain(f: Formats, t: Token)
    requires PlainFormats(f) && TokenOk(f, t)
    ensures PlainToken(t)
  {
    var def := DefinitionOf(f, t.token);
    if def.Some? {
      assert PlainDefinition(def.value);
      FittingFieldsAre(def.value.fields, t.size - 8);
    }
  }

  lemma {:induction false} ReadTokensPlain(f: Formats, ts: seq<Token>)
    requires PlainFormats(f) && AllTokensOk(f, ts)
    ensures PlainTokens(ts)
  {
    if ts != [] {
      ReadTokenPlain(f, ts[0]);
      ReadTokensPlain(f, ts[1..]);
      assert forall i :: 0 < i < |ts| ==> ts[i] == ts[1..][i - 1];
    }
  }

  lemma SectionPlain(f: Formats, vs: seq<Value>, ts: seq<Token>)
    requires PlainFormats(f) && PlainHeader(vs) && TokensOk(f, ts, Lookup(vs, PATCH_LIST_SIZE))
    ensures PlainSection(vs, ts)
  {
    ReadTokensPlain(f, ts);
    if ts != [] {
      assert |TokenBytes(ts[0])| >= 8;
      SizeFound(vs);
      SizeFits(vs);
    }
  }

  lemma ReadKernelPlain(f: Formats, k: Kernel)
    requires PlainFormats(f) && KernelOk(f, k) && PlainNames([k])
    ensures PlainKernel(k) && PlainKernelHeader(k.header)
  {
    HeaderPlain(k.header, f.kernelHeader);
    SectionPlain(f, k.header, k.tokens);
    assert [k][0] == k;
  }

  /** What was read with plain names can be printed as plain text. */
  lemma ReadProgramPlain(f: Formats, p: Program)
    requires PlainFormats(f) && ProgramOk(f, p) && PlainNames(p.kernels)
    ensures PlainProgram(p) && forall i :: 0 <= i < |p.kernels| ==> PlainKernelHeader(p.kernels[i].header)
  {
    HeaderPlain(p.header, f.programHeader);
    SectionPlain(f, p.header, p.tokens);
    forall i | 0 <= i < |p.kernels| ensures PlainKernel(p.kernels[i]) && PlainKernelHeader(p.kernels[i].header) {
      assert KernelOk(f, p.kernels[i]);
      ReadKernelPlain(f, p.kernels[i]);
    }
  }

  // ----- the text as a file ---------------------------------------------------------------

  predicate OneLineEach(lines: seq<string>) {
    forall k :: 0 <= k < |lines| ==> '\n' !in lines[k]
  }

  lemma OneLineAppend(a: seq<string>, b: seq<string>)
    requires OneLineEach(a) && OneLineEach(b)
    ensures OneLineEach(a + b)
  {
  }

  lemma ValuesOneLine(vs: seq<Value>)
    requires PlainValues(vs)
    ensures OneLineEach(ValuesLines(vs))
  {
    forall k | 0 <= k < |ValuesLines(vs)| ensures '\n' !in ValuesLines(vs)[k] {
      ValuesLinesAt(vs, k);
      assert PlainValue(vs[k]);
      FieldLineChar(vs[k], '\n');
    }
  }

  lemma TokenOneLine(t: Token)
    requires PlainToken(t)
    ensures OneLineEach(TokenLines(t))
  {
    var token, size := FieldLine(NumberValue("Token", t.token)), FieldLine(NumberValue("Size", t.size));
    FieldLineChar(NumberValue("Token", t.token), '\n');
    FieldLineChar(NumberValue("Size", t.size), '\n');
    assert OneLineEach([TitleLine(t.title), token, size]);
    HexLineChar(t.hex, '\n');
    ValuesOneLine(t.values);
    OneLineAppend([TitleLine(t.title), token, size], ValuesLines(t.values));
    OneLineAppend(FrontLines(t.title, t.token, t.size, t.values), RestLines(t.hex));
  }

  lemma {:induction false} TokensOneLine(ts: seq<Token>)
    requires PlainTokens(ts)
    ensures OneLineEach(TokensLines(ts))
  {
    if ts != [] {
      assert PlainToken(ts[0]);
      TokenOneLine(ts[0]);
      TokensOneLine(ts[1..]);
      OneLineAppend(TokenLines(ts[0]), TokensLines(ts[1..]));
    }
  }

  lemma SectionOneLine(vs: seq<Value>, mid: seq<string>, ts: seq<Token>)
    requires PlainSection(vs, ts) && OneLineEach(mid)
    ensures OneLineEach(SectionLines(vs, mid, ts))
  {
    ValuesOneLine(vs);
    TokensOneLine(ts);
    OneLineAppend(mid, TokensLines(ts));
    OneLineAppend(ValuesLines(vs), mid + TokensLines(ts));
  }

  lemma KernelOneLine(n: nat, k: Kernel)
    requires PlainKernel(k)
    ensures OneLineEach(KernelLines(n, k))
  {
    var titles, name := [KernelTitle(n), "KernelBinaryHeader:"], [NameLine(k.nameArea)];
    KernelTitlesOneLine(n);
    NameOneLine(k.nameArea);
    KernelLinesAre(n, k);
    SectionOneLine(k.header, name, k.tokens);
    OneLineAppend(titles, SectionLines(k.header, name, k.tokens));
  }

  lemma KernelTitlesOneLine(n: nat)
    ensures OneLineEach([KernelTitle(n), "KernelBinaryHeader:"])
  {
    KernelTitleChar(n, '\n');
  }

  lemma NameOneLine(area: seq<byte>)
    requires '\n' !in NameOf(area)
    ensures OneLineEach([NameLine(area)])
  {
    NameLineIs(area);
  }

  lemma {:induction false} KernelsOneLine(n: nat, ks: seq<Kernel>)
    requires PlainKernels(ks)
    ensures OneLineEach(KernelsLines(n, ks))
    decreases |ks|
  {
    if ks != [] {
      assert PlainKernel(ks[0]);
      KernelsLinesCons(n, ks);
      KernelOneLine(n, ks[0]);
      KernelsOneLine(n + 1, ks[1..]);
      OneLineAppend(KernelLines(n, ks[0]), KernelsLines(n + 1, ks[1..]));
    }
  }

  lemma TitleOneLine()
    ensures OneLineEach(["ProgramBinaryHeader:"])
  {
  }

  lemma ProgramOneLine(p: Program)
    requires PlainProgram(p)
    ensures OneLineEach(ProgramLines(p))
  {
    var title, body, tail := ["ProgramBinaryHeader:"], SectionLines(p.header, [], p.tokens), KernelsLines(0, p.kernels);
    ProgramLinesAre(p);
    SectionOneLine(p.header, [], p.tokens);
    KernelsOneLine(0, p.kernels);
    TitleOneLine();
    OneLineAppend(title, body);
    OneLineAppend(title + body, tail);
  }

  /** The printed file is read back as the printed lines. */
  lemma PrintedLines(p: Program)
    requires PlainProgram(p)
    ensures Split(Join(ProgramLines(p))) == ProgramLines(p)
  {
    ProgramOneLine(p);
    SplitJoin(ProgramLines(p));
  }

  // ----- writing the corrected program ----------------------------------------------------

  lemma {:induction false} SetSizeKeeps(vs: seq<Value>, x: nat, name: string)
    ensures forall i :: 0 <= i < |vs| ==> SetSize(vs, x)[i].field == vs[i].field
    ensures name != PATCH_LIST_SIZE ==> Lookup(SetSize(vs, x), name) == Lookup(vs, name)
  {
    if vs != [] {
      var n := |vs| - 1;
      if vs[n].field.name == PATCH_LIST_SIZE {
        assert SetSize(vs, x)[..n] == vs[..n];
      } else {
        SetSizeKeeps(vs[..n], x, name);
        assert SetSize(vs, x)[..n] == SetSize(vs[..n], x);
      }
    }
  }

  lemma ResizedWritable(dump: Dump, k: Kernel)
    requires PlainKernel(k) && Writable(dump, k)
    ensures Writable(dump, ResizeKernel(k))
  {
    if NameMarked(k) {
      SetSizeFits(k.header, |TokensBytes(k.tokens)|);
      SetSizeKeeps(k.header, |TokensBytes(k.tokens)|, KERNEL_NAME_SIZE);
    } else
    if Listed(k.tokens) != [] {
      ListedBytes(k.tokens);
      SetSizeFits(k.header, |TokensBytes(Listed(k.tokens))|);
      SetSizeKeeps(k.header, |TokensBytes(Listed(k.tokens))|, KERNEL_NAME_SIZE);
    }
  }

  lemma {:induction false} ResizeKernelsAt(ks: seq<Kernel>, i: nat)
    requires i < |ks|
    ensures |ResizeKernels(ks)| == |ks| && ResizeKernels(ks)[i] == ResizeKernel(ks[i])
  {
    if i > 0 { ResizeKernelsAt(ks[1..], i - 1); } else if |ks| > 1 { ResizeKernelsAt(ks[1..], 0); }
  }

  lemma ResizedAllWritable(dump: Dump, ks: seq<Kernel>)
    requires PlainKernels(ks) && forall i :: 0 <= i < |ks| ==> Writable(dump, ks[i])
    ensures forall i :: 0 <= i < |ResizeKernels(ks)| ==> Writable(dump, ResizeKernels(ks)[i])
  {
    if ks != [] {
      ResizeKernelsAt(ks, 0);
      forall i | 0 <= i < |ks| ensures Writable(dump, ResizeKernels(ks)[i]) {
        ResizeKernelsAt(ks, i);
        assert PlainKernel(ks[i]) && Writable(dump, ks[i]);
        ResizedWritable(dump, ks[i]);
      }
    }
  }

  /** Assembling a printed program writes the program with corrected sizes. */
  lemma EncodePrinted(p: Program, dump: Dump)
    requires PlainProgram(p) && forall i :: 0 <= i < |p.kernels| ==> Writable(dump, p.kernels[i])
    ensures Encode(dump, Join(ProgramLines(p))) == Some(ProgramOut(ResizeProgram(p)))
  {
    PrintedLines(p);
    FixProgram(p);
    ResizedAllWritable(dump, p.kernels);
    ResizeHeaderFits(p.header, p.tokens);
    EncodeProgram(dump, ResizeProgram(p));
  }

  // ----- when the sizes stay --------------------------------------------------------------

  /** The size of a list counts all of it: it is empty or all unidentified, or starts with an identified token. */
  predicate Counted(ts: seq<Token>) {
    Listed(ts) == [] || ts[0].title.Some?
  }

  /** So does it after a name that is taken for a token. */
  predicate KernelCounted(k: Kernel) { NameMarked(k) || Counted(k.tokens) }

  predicate AllCounted(p: Program) {
    Counted(p.tokens) && forall i :: 0 <= i < |p.kernels| ==> KernelCounted(p.kernels[i])
  }

  /** Every name is padded, and every kernel's heaps come back in their place. */
  predicate AllInPlace(ks: seq<Kernel>) {
    forall i :: 0 <= i < |ks| ==> Padded(ks[i].nameArea) && HeapsInPlace(ks[i])
  }

  lemma {:induction false} ValuesBytesLast(vs: seq<Value>)
    requires vs != []
    ensures var n := |vs| - 1; ValuesBytes(vs) == ValuesBytes(vs[..n]) + LE(vs[n].value, vs[n].field.size)
  {
    var n := |vs| - 1;
    if n == 0 {
      assert vs[1..] == [];
      assert ValuesBytes(vs) == LE(vs[0].value, vs[0].field.size) + ValuesBytes([]);
    } else {
      ValuesBytesLast(vs[1..]);
      assert vs[1..][..n - 1] == vs[..n][1..];
      Assoc(LE(vs[0].value, vs[0].field.size), ValuesBytes(vs[..n][1..]), LE(vs[n].value, vs[n].field.size));
    }
  }

  lemma SameLE(x: nat, y: nat)
    requires x < TWO_32 && y < TWO_32
    ensures LE(x, 4) == LE(y, 4) <==> x == y
  {
    Pow256Sizes();
    FromLEofLE(x, 4);
    FromLEofLE(y, 4);
  }

  /** Setting the size keeps the length of the header, and its bytes exactly if the size is the same. */
  lemma {:induction false} SetSizeBytes(vs: seq<Value>, x: nat)
    requires PlainHeader(vs) && HasSize(vs) && x < TWO_32
    ensures |ValuesBytes(SetSize(vs, x))| == |ValuesBytes(vs)|
    ensures ValuesBytes(SetSize(vs, x)) == ValuesBytes(vs) <==> x == Lookup(vs, PATCH_LIST_SIZE)
  {
    var n, r := |vs| - 1, SetSize(vs, x);
    ValuesBytesLast(vs);
    ValuesBytesLast(r);
    if vs[n].field.name == PATCH_LIST_SIZE {
      SizeFieldIs(vs[n]);
      SizeFits(vs);
      assert r[..n] == vs[..n];
      SameLE(x, vs[n].value);
      SameSplit(ValuesBytes(vs[..n]), LE(x, 4), ValuesBytes(vs[..n]), LE(vs[n].value, 4));
    } else {
      assert r[..n] == SetSize(vs[..n], x);
      SetSizeBytes(vs[..n], x);
      SameTail(ValuesBytes(r[..n]), ValuesBytes(vs[..n]), LE(vs[n].value, vs[n].field.size));
    }
  }

  lemma HeaderBytesIff(vs: seq<Value>, ts: seq<Token>)
    requires PlainSection(vs, ts) && |TokensBytes(ts)| == Lookup(vs, PATCH_LIST_SIZE)
    ensures |ValuesBytes(ResizeHeader(vs, ts))| == |ValuesBytes(vs)|
    ensures ValuesBytes(ResizeHeader(vs, ts)) == ValuesBytes(vs) <==> Counted(ts)
  {
    if Listed(ts) != [] {
      ListedBytes(ts);
      CorrectedSizeIs(vs, ts);
      SetSizeBytes(vs, |TokensBytes(Listed(ts))|);
    }
  }

  predicate SizeRight(k: Kernel) {
    |TokensBytes(k.tokens)| == Lookup(k.header, PATCH_LIST_SIZE)
  }

  predicate Returns(k: Kernel) {
    KernelCounted(k) && Padded(k.nameArea) && HeapsInPlace(k)
  }

  /** What is written for a printed kernel. */
  function Rewritten(k: Kernel): seq<byte> { KernelOut(ResizeKernel(k)) }

  lemma KernelHeaderIff(k: Kernel)
    requires PlainKernel(k) && SizeRight(k)
    ensures |ValuesBytes(ResizeKernel(k).header)| == |ValuesBytes(k.header)|
    ensures ValuesBytes(ResizeKernel(k).header) == ValuesBytes(k.header) <==> KernelCounted(k)
  {
    if NameMarked(k) {
      SetSizeBytes(k.header, |TokensBytes(k.tokens)|);
    } else {
      HeaderBytesIff(k.header, k.tokens);
    }
  }

  lemma KernelOutIff(k: Kernel)
    requires PlainKernel(k) && SizeRight(k)
    ensures |Rewritten(k)| - |KernelBytes(k)| == |GeneralDumped(k)| - |k.generalHeap|
    ensures Rewritten(k) == KernelBytes(k) <==> Returns(k)
  {
    var r := ResizeKernel(k);
    assert AreaOut(r) == AreaOut(k);
    KernelHeaderIff(k);
    AreaWrittenIff(k);
    SameTail(ValuesBytes(r.header) + AreaOut(k), ValuesBytes(k.header) + AreaBytes(k), TokensBytes(k.tokens));
    SameSplit(ValuesBytes(r.header), AreaOut(k), ValuesBytes(k.header), AreaBytes(k));
  }

  /** Where no item is written shorter than it was, all bytes are the same exactly if those of each item are. */
  lemma {:induction false} SameItems<T>(f: T -> seq<byte>, g: T -> seq<byte>, items: seq<T>)
    requires forall i :: 0 <= i < |items| ==> |f(items[i])| >= |g(items[i])|
    ensures |BytesOf(f, items)| >= |BytesOf(g, items)|
    ensures (forall i :: 0 <= i < |items| ==> |f(items[i])| == |g(items[i])|) ==>
      |BytesOf(f, items)| == |BytesOf(g, items)|
    ensures BytesOf(f, items) == BytesOf(g, items) <==> forall i :: 0 <= i < |items| ==> f(items[i]) == g(items[i])
  {
    if items != [] {
      var x, tail := items[0], items[1..];
      SameItems(f, g, tail);
      if |f(x)| == |g(x)| { SameSplit(f(x), BytesOf(f, tail), g(x), BytesOf(g, tail)); }
      assert items == [x] + tail;
    }
  }

  lemma {:induction false} ResizedOut(ks: seq<Kernel>)
    ensures BytesOf(KernelOut, ResizeKernels(ks)) == BytesOf(Rewritten, ks)
  {
    if ks != [] {
      ResizedOut(ks[1..]);
      assert ([ResizeKernel(ks[0])] + ResizeKernels(ks[1..]))[1..] == ResizeKernels(ks[1..]);
    }
  }

  /** No general state heap is longer than its dynamic one, or none that exists is shorter. */
  predicate SameDirection(ks: seq<Kernel>) {
    (forall i :: 0 <= i < |ks| ==> |ks[i].generalHeap| <= |ks[i].dynamicHeap| || ks[i].generalHeap == []) ||
    (forall i :: 0 <= i < |ks| ==> |ks[i].generalHeap| >= |ks[i].dynamicHeap| || ks[i].generalHeap == [])
  }

  /** General state heaps are empty or as long as the dynamic ones. */
  predicate LengthsKept(ks: seq<Kernel>) {
    forall i :: 0 <= i < |ks| ==> |ks[i].generalHeap| == |ks[i].dynamicHeap| || ks[i].generalHeap == []
  }

  lemma KernelsOutIff(ks: seq<Kernel>)
    requires PlainKernels(ks) && SizesRight(ks) && SameDirection(ks)
    ensures LengthsKept(ks) ==> |BytesOf(Rewritten, ks)| == |KernelsBytes(ks)|
    ensures BytesOf(Rewritten, ks) == KernelsBytes(ks) <==> forall i :: 0 <= i < |ks| ==> Returns(ks[i])
  {
    forall i | 0 <= i < |ks| ensures Compared(ks[i]) {
      assert PlainKernel(ks[i]) && SizeRight(ks[i]);
      KernelOutIff(ks[i]);
    }
    if forall i :: 0 <= i < |ks| ==> |ks[i].generalHeap| <= |ks[i].dynamicHeap| || ks[i].generalHeap == [] {
      assert forall i :: 0 <= i < |ks| ==> Compared(ks[i]) ==> |Rewritten(ks[i])| >= |KernelBytes(ks[i])|;
      SameItems(Rewritten, KernelBytes, ks);
    } else {
      assert forall i :: 0 <= i < |ks| ==> Compared(ks[i]) ==> |KernelBytes(ks[i])| >= |Rewritten(ks[i])|;
      SameItems(KernelBytes, Rewritten, ks);
    }
    assert forall i :: 0 <= i < |ks| ==> Compared(ks[i]) ==> (Rewritten(ks[i]) == KernelBytes(ks[i]) <==> Returns(ks[i]));
  }

  /** How a kernel as it is written compares with the kernel as it was read. */
  predicate Compared(k: Kernel) {
    && (k.generalHeap == [] || |k.generalHeap| == |k.dynamicHeap| ==> |Rewritten(k)| == |KernelBytes(k)|)
    && (k.generalHeap == [] || |k.generalHeap| <= |k.dynamicHeap| ==> |Rewritten(k)| >= |KernelBytes(k)|)
    && (k.generalHeap == [] || |k.generalHeap| >= |k.dynamicHeap| ==> |Rewritten(k)| <= |KernelBytes(k)|)
    && (Rewritten(k) == KernelBytes(k) <==> Returns(k))
  }

  predicate SizesRight(ks: seq<Kernel>) {
    forall i :: 0 <= i < |ks| ==> SizeRight(ks[i])
  }

  /**
   * A printed program is written back as it was exactly if every list is counted whole and every
   * kernel's name and heaps come back.
   */
  lemma ProgramOutIff(p: Program)
    requires PlainProgram(p) && |TokensBytes(p.tokens)| == Lookup(p.header, PATCH_LIST_SIZE)
    requires SizesRight(p.kernels) && SameDirection(p.kernels)
    ensures LengthsKept(p.kernels) ==> |ProgramOut(ResizeProgram(p))| == |ProgramBytes(p)|
    ensures ProgramOut(ResizeProgram(p)) == ProgramBytes(p) <==> AllCounted(p) && AllInPlace(p.kernels)
  {
    var r := ResizeProgram(p);
    HeaderBytesIff(p.header, p.tokens);
    ResizedOut(p.kernels);
    KernelsOutIff(p.kernels);
    SameSplit(ValuesBytes(r.header) + TokensBytes(p.tokens), BytesOf(Rewritten, p.kernels),
              ValuesBytes(p.header) + TokensBytes(p.tokens), KernelsBytes(p.kernels));
    SameTail(ValuesBytes(r.header), ValuesBytes(p.header), TokensBytes(p.tokens));
  }

  /** An unidentified token before an identified one goes missing in the corrected size. */
  lemma UncountedToken(vs: seq<Value>, t: Token, ts: seq<Token>)
    requires PlainSection(vs, [t] + ts) && t.title.None? && ts != [] && ts[0].title.Some?
    ensures !Counted([t] + ts)
    ensures Lookup(ResizeHeader(vs, [t] + ts), PATCH_LIST_SIZE) == |TokensBytes([t] + ts)| - |TokenBytes(t)|
  {
    assert ([t] + ts)[1..] == ts && Listed([t] + ts) == ts;
    CorrectedSizeIs(vs, [t] + ts);
  }

  // ----- the whole way --------------------------------------------------------------------

  lemma ReadWritable(f: Formats, p: Program)
    requires PlainFormats(f) && ProgramOk(f, p) && PlainNames(p.kernels) && Dumpable(p.kernels)
    ensures forall i :: 0 <= i < |p.kernels| ==> Writable(ProgramFiles(map[], p.kernels), p.kernels[i])
  {
    ReadProgramPlain(f, p);
    forall i | 0 <= i < |p.kernels| ensures Writable(ProgramFiles(map[], p.kernels), p.kernels[i]) {
      assert KernelOk(f, p.kernels[i]);
      DumpHolds(map[], p.kernels, i);
      assert PlainKernel(p.kernels[i]);
    }
  }

  /**
   * Any device binary the disassembler reads, with names the text can carry, is assembled again. It
   * comes back byte for byte exactly if no patch list has an unidentified token before an
   * identified one, and every kernel has a padded name and its heaps in place.
   */
  lemma EncodeInvertsDecode(f: Formats, b: seq<byte>)
    requires PlainFormats(f) && ReadProgram(f, b).Parsed?
    requires var ks := ReadProgram(f, b).part.kernels; PlainNames(ks) && Dumpable(ks) && SameDirection(ks)
    ensures var r := ReadProgram(f, b);
      var out := Encode(ProgramFiles(map[], r.part.kernels), Join(ProgramLines(r.part)));
      && out.Some? && (LengthsKept(r.part.kernels) ==> |out.value| + |r.rest| == |b|)
      && (out.value + r.rest == b <==> AllCounted(r.part) && AllInPlace(r.part.kernels))
  {
    var p, rest := ReadProgram(f, b).part, ReadProgram(f, b).rest;
    ReadProgramExact(f, b);
    ReadProgramPlain(f, p);
    ReadWritable(f, p);
    EncodePrinted(p, ProgramFiles(map[], p.kernels));
    forall i | 0 <= i < |p.kernels| ensures SizeRight(p.kernels[i]) {
      assert KernelOk(f, p.kernels[i]);
    }
    ProgramOutIff(p);
    SameTail(ProgramOut(ResizeProgram(p)), ProgramBytes(p), rest);
  }

  // ----- an uncounted token, concretely ---------------------------------------------------

  /** A program header that is the patch list size alone, and one known token. */
  const SMALL_FORMATS: Formats := Formats([Field(4, PATCH_LIST_SIZE)], [], map[1 := TokenDef(PATCH_TOKEN, [])])

  /** Two tokens without fields: number 5, which is not known, and number 1. */
  const SMALL_LIST: seq<byte> := [5, 0, 0, 0, 8, 0, 0, 0] + [1, 0, 0, 0, 8, 0, 0, 0]

  const UNKNOWN_FIVE: Token := Token(None, 5, 8, [], [])
  const KNOWN_ONE: Token := Token(Some(PATCH_TOKEN), 1, 8, [], [])

  lemma SizeFieldPlain()
    ensures PlainName(PATCH_LIST_SIZE) && PlainSizeField(Field(4, PATCH_LIST_SIZE))
  {
    SizeNamePlain();
    MissingChar(PATCH_LIST_SIZE, PATCH_TOKEN, '_');
  }

  lemma TokenTitlePlain()
    ensures PlainTitle(PATCH_TOKEN)
  {
    SelfContained(PATCH_TOKEN);
    MissingChar(PATCH_TOKEN, PATCH_LIST_SIZE, 'L');
  }

  lemma SmallFormatsPlain()
    ensures PlainFormats(SMALL_FORMATS)
  {
    SizeFieldPlain();
    TokenTitlePlain();
  }

  lemma SmallToken(n: byte, rest: seq<byte>)
    ensures ReadToken(SMALL_FORMATS, [n, 0, 0, 0, 8, 0, 0, 0] + rest)
      == Parsed(Token(if n == 1 then Some(PATCH_TOKEN) else None, n, 8, [], []), rest)
  {
    var b := [n, 0, 0, 0, 8, 0, 0, 0] + rest;
    assert b[..4] == [n, 0, 0, 0] && b[4..8] == [8, 0, 0, 0] && b[8..] == rest && b[8..8] == [];
    SmallNumber(n);
    SmallNumber(8);
  }

  lemma ReadTokensNext(b: seq<byte>, t: Token, rest: seq<byte>, ts: seq<Token>)
    requires b != [] && ReadToken(SMALL_FORMATS, b) == Parsed(t, rest) && ReadTokens(SMALL_FORMATS, rest) == Some(ts)
    ensures ReadTokens(SMALL_FORMATS, b) == Some([t] + ts)
  {
  }

  lemma SmallTokens()
    ensures ReadTokens(SMALL_FORMATS, SMALL_LIST) == Some([UNKNOWN_FIVE, KNOWN_ONE])
  {
    var second: seq<byte>, none: seq<byte>, nothing: seq<Token> := [1, 0, 0, 0, 8, 0, 0, 0], [], [];
    SmallToken(5, second);
    SmallToken(1, none);
    assert second + none == second && [KNOWN_ONE] + nothing == [KNOWN_ONE];
    ReadTokensNext(second, KNOWN_ONE, none, nothing);
    ReadTokensNext(SMALL_LIST, UNKNOWN_FIVE, second, [KNOWN_ONE]);
    assert [UNKNOWN_FIVE] + [KNOWN_ONE] == [UNKNOWN_FIVE, KNOWN_ONE];
  }

  lemma ReadOneValue(field: Field, front: seq<byte>, rest: seq<byte>)
    requires field.size == 4 && |front| == 4
    ensures ReadValues([field], front + rest) == Parsed([Value(field, FromLE(front))], rest)
  {
    var b, none: seq<Value> := front + rest, [];
    assert b[..4] == front && b[4..] == rest && [field][1..] == [];
    assert ReadValues([], rest) == Parsed([], rest);
    assert [Value(field, FromLE(front))] + none == [Value(field, FromLE(front))];
  }

  /** The size 16 in front of the list makes a binary. */
  lemma SmallProgram()
    ensures ReadProgram(SMALL_FORMATS, [16, 0, 0, 0] + SMALL_LIST)
      == Parsed(Program([NumberValue(PATCH_LIST_SIZE, 16)], [UNKNOWN_FIVE, KNOWN_ONE], []), [])
  {
    SmallNumber(16);
    ReadOneValue(Field(4, PATCH_LIST_SIZE), [16, 0, 0, 0], SMALL_LIST);
    SmallTokens();
    assert SMALL_LIST[..16] == SMALL_LIST && SMALL_LIST[16..] == [];
    var vs := [NumberValue(PATCH_LIST_SIZE, 16)];
    assert vs[..0] == [] && Lookup(vs, PATCH_LIST_SIZE) == 16 && Lookup(vs, "NumberOfKernels") == 0;
  }

  lemma SmallResized()
    ensures ResizeHeader([NumberValue(PATCH_LIST_SIZE, 16)], [UNKNOWN_FIVE, KNOWN_ONE]) == [NumberValue(PATCH_LIST_SIZE, 8)]
    ensures ValuesBytes([NumberValue(PATCH_LIST_SIZE, 8)]) == [8, 0, 0, 0]
  {
    var ts := [UNKNOWN_FIVE, KNOWN_ONE];
    assert ts[1..] == [KNOWN_ONE] && Listed(ts) == [KNOWN_ONE];
    assert TokensBytes([KNOWN_ONE]) == TokenBytes(KNOWN_ONE) + TokensBytes([]);
    assert |TokenBytes(KNOWN_ONE)| == 8;
    SmallNumber(8);
    assert ValuesBytes([NumberValue(PATCH_LIST_SIZE, 8)]) == LE(8, 4) + ValuesBytes([]);
  }

  lemma SmallWritten(p: Program)
    requires p == Program([NumberValue(PATCH_LIST_SIZE, 16)], [UNKNOWN_FIVE, KNOWN_ONE], [])
    ensures ProgramOut(ResizeProgram(p)) == [8, 0, 0, 0] + SMALL_LIST
  {
    SmallTokens();
    ReadTokensExact(SMALL_FORMATS, SMALL_LIST);
    SmallResized();
    assert BytesOf(KernelOut, []) == [];
  }

  /** This binary of a size and two tokens comes back with the size 8 in place of 16. */
  lemma UncountedBinary()
    ensures ReadProgram(SMALL_FORMATS, [16, 0, 0, 0] + SMALL_LIST).Parsed?
    ensures var p := ReadProgram(SMALL_FORMATS, [16, 0, 0, 0] + SMALL_LIST).part;
      Encode(ProgramFiles(map[], p.kernels), Join(ProgramLines(p))) == Some([8, 0, 0, 0] + SMALL_LIST)
  {
    var p := Program([NumberValue(PATCH_LIST_SIZE, 16)], [UNKNOWN_FIVE, KNOWN_ONE], []);
    SmallFormatsPlain();
    SmallProgram();
    ReadProgramExact(SMALL_FORMATS, [16, 0, 0, 0] + SMALL_LIST);
    ReadProgramPlain(SMALL_FORMATS, p);
    EncodePrinted(p, map[]);
    SmallWritten(p);
  }

  // ----- heaps that cancel, concretely ----------------------------------------------------

  /** A program header with the number of kernels, and kernels with a name and two kinds of heaps. */
  const HEAP_FORMATS: Formats := Formats([Field(4, "NumberOfKernels")],
    [Field(4, KERNEL_NAME_SIZE), Field(4, "GeneralStateHeapSize"), Field(4, "DynamicStateHeapSize")], map[])

  function HeapHeader(name: nat, general: nat, dynamic: nat): seq<Value> {
    [NumberValue(KERNEL_NAME_SIZE, name), NumberValue("GeneralStateHeapSize", general),
     NumberValue("DynamicStateHeapSize", dynamic)]
  }

  /** The general heap of the second kernel: a byte, and the header and the name of that kernel itself. */
  function Echo(): (u: seq<byte>)
    ensures |u| == 15
  {
    HeapHeaderSize(2, 15, 0);
    [7] + (ValuesBytes(HeapHeader(2, 15, 0)) + [66, 0])
  }

  lemma ThreeValues(a: Value, b: Value, c: Value)
    ensures ValuesBytes([a, b, c]) == LE(a.value, a.field.size) + (LE(b.value, b.field.size) + LE(c.value, c.field.size))
  {
    var none: seq<Value> := [];
    ValuesBytesCons(a, [b, c]);
    ValuesBytesCons(b, [c]);
    ValuesBytesCons(c, none);
    assert [a] + [b, c] == [a, b, c] && [b] + [c] == [b, c] && [c] + none == [c];
  }

  lemma HeapHeaderSize(name: nat, general: nat, dynamic: nat)
    ensures |ValuesBytes(HeapHeader(name, general, dynamic))| == 12
  {
    var vs := HeapHeader(name, general, dynamic);
    ThreeValues(vs[0], vs[1], vs[2]);
  }

  /** Kernel A has a general heap of 1 byte and a dynamic one of 16, kernel B a general one of 15 and no other. */
  function EchoKernels(): seq<Kernel> {
    [Kernel(HeapHeader(2, 1, 16), [65, 0], [], [9], Echo() + [7], [], []),
     Kernel(HeapHeader(2, 15, 0), [66, 0], [], Echo(), [], [], [])]
  }

  function EchoProgram(): Program { Program([NumberValue("NumberOfKernels", 2)], [], EchoKernels()) }

  lemma LookupThree(a: Value, b: Value, c: Value, name: string)
    ensures Lookup([a, b, c], name) == if c.field.name == name then c.value
      else if b.field.name == name then b.value else if a.field.name == name then a.value else 0
  {
    LookupLast([a, b], c, name);
    LookupLast([a], b, name);
    LookupLast([], a, name);
    assert [a, b] + [c] == [a, b, c] && [a] + [b] == [a, b] && [] + [a] == [a];
  }

  lemma LookupLast(vs: seq<Value>, v: Value, name: string)
    ensures Lookup(vs + [v], name) == if v.field.name == name then v.value else Lookup(vs, name)
  {
    assert (vs + [v])[..|vs|] == vs;
  }

  /** The names of the sizes are told apart by their lengths and single letters. */
  lemma SizeNamesDiffer()
    ensures "KernelNameSize" != "KernelHeapSize" && "GeneralStateHeapSize" != "DynamicStateHeapSize"
    ensures "SurfaceStateHeapSize" != "GeneralStateHeapSize" && "SurfaceStateHeapSize" != "DynamicStateHeapSize"
  {
    assert "KernelNameSize"[6] == 'N' && "KernelHeapSize"[6] == 'H';
    assert "GeneralStateHeapSize"[0] == 'G' && "DynamicStateHeapSize"[0] == 'D' && "SurfaceStateHeapSize"[0] == 'S';
  }

  lemma HeapLookup(name: nat, general: nat, dynamic: nat, m: string)
    ensures Lookup(HeapHeader(name, general, dynamic), m) == if "DynamicStateHeapSize" == m then dynamic
      else if "GeneralStateHeapSize" == m then general else if KERNEL_NAME_SIZE == m then name else 0
  {
    var vs := HeapHeader(name, general, dynamic);
    LookupThree(vs[0], vs[1], vs[2], m);
  }

  lemma HeapLookups(name: nat, general: nat, dynamic: nat)
    ensures var vs := HeapHeader(name, general, dynamic);
      && Lookup(vs, "KernelNameSize") == name && Lookup(vs, "KernelHeapSize") == 0
      && Lookup(vs, "GeneralStateHeapSize") == general && Lookup(vs, "DynamicStateHeapSize") == dynamic
      && Lookup(vs, "SurfaceStateHeapSize") == 0 && Lookup(vs, "PatchListSize") == 0
  {
    SizeNamesDiffer();
    HeapLookup(name, general, dynamic, "KernelNameSize");
    HeapLookup(name, general, dynamic, "KernelHeapSize");
    HeapLookup(name, general, dynamic, "GeneralStateHeapSize");
    HeapLookup(name, general, dynamic, "DynamicStateHeapSize");
    HeapLookup(name, general, dynamic, "SurfaceStateHeapSize");
    HeapLookup(name, general, dynamic, "PatchListSize");
  }

  lemma EchoKernelsOk()
    ensures KernelsOk(HEAP_FORMATS, EchoKernels())
  {
    HeapLookups(2, 1, 16);
    HeapLookups(2, 15, 0);
    Pow256Sizes();
  }

  lemma EchoProgramOk()
    ensures ProgramOk(HEAP_FORMATS, EchoProgram())
  {
    var vs := [NumberValue("NumberOfKernels", 2)];
    assert vs[..0] == [];
    Pow256Sizes();
    EchoKernelsOk();
  }

  lemma NoSizeName(name: string)
    requires 'L' !in name && '_' !in name
    ensures Unmarked(name) && PlainSizeField(Field(4, name))
  {
    MissingChar(name, PATCH_LIST_SIZE, 'L');
    MissingChar(name, PATCH_TOKEN, '_');
  }

  predicate Letter(c: char) { 'A' <= c <= 'Z' || 'a' <= c <= 'z' }

  /** Words of letters without those that tell the texts of the format apart. */
  lemma WordPlain(name: string)
    requires name != [] && 'x' !in name && 'L' !in name && forall i :: 0 <= i < |name| ==> Letter(name[i])
    ensures PlainName(name) && PlainSizeField(Field(4, name))
  {
    MissingChar(name, HEX, 'x');
    NoSizeName(name);
  }

  lemma NotTheName(name: string)
    requires |name| >= 10 && name[|name| - 10] != 'K' && 'K' !in name
    ensures PlainNameField(Field(4, name))
  {
    assert "KernelName"[0] == 'K';
    MissingChar(name, KERNEL_NAME_SIZE, 'K');
  }

  predicate PlainKernelField(name: string) {
    PlainName(name) && PlainSizeField(Field(4, name)) && PlainNameField(Field(4, name))
  }

  lemma NameSizePlain()
    ensures PlainKernelField(KERNEL_NAME_SIZE)
  {
    WordPlain(KERNEL_NAME_SIZE);
    assert KERNEL_NAME_SIZE[4..][0] == 'e' && "KernelName"[0] == 'K';
  }

  lemma GeneralSizePlain()
    ensures PlainKernelField("GeneralStateHeapSize")
  {
    WordPlain("GeneralStateHeapSize");
    NotTheName("GeneralStateHeapSize");
  }

  lemma DynamicSizePlain()
    ensures PlainKernelField("DynamicStateHeapSize")
  {
    WordPlain("DynamicStateHeapSize");
    NotTheName("DynamicStateHeapSize");
  }

  lemma CountPlain()
    ensures PlainName("NumberOfKernels") && PlainSizeField(Field(4, "NumberOfKernels"))
  {
    WordPlain("NumberOfKernels");
  }

  lemma HeapFormatsPlain()
    ensures PlainFormats(HEAP_FORMATS)
  {
    CountPlain();
    NameSizePlain();
    GeneralSizePlain();
    DynamicSizePlain();
    FieldsPlain("NumberOfKernels", KERNEL_NAME_SIZE, "GeneralStateHeapSize", "DynamicStateHeapSize");
  }

  lemma FieldsPlain(n: string, a: string, b: string, c: string)
    requires PlainName(n) && PlainSizeField(Field(4, n))
    requires PlainKernelField(a) && PlainKernelField(b) && PlainKernelField(c)
    ensures PlainFormats(Formats([Field(4, n)], [Field(4, a), Field(4, b), Field(4, c)], map[]))
  {
  }

  lemma ShortName(c: byte)
    requires c != 0
    ensures NameOf([c, 0]) == [c as char] && Padded([c, 0])
  {
    assert [c, 0][1..] == [0] && NameOf([0]) == [];
  }

  lemma EchoNames()
    ensures PlainNames(EchoKernels()) && Dumpable(EchoKernels())
  {
    ShortName(65);
    ShortName(66);
    NoSizeName(NameOf([65, 0]));
    NoSizeName(NameOf([66, 0]));
  }

  lemma TwoKernels(bytes: Kernel -> seq<byte>, a: Kernel, b: Kernel)
    ensures BytesOf(bytes, [a, b]) == bytes(a) + bytes(b)
  {
    var none: seq<byte> := [];
    assert [a, b][1..] == [b] && [b][1..] == [];
    assert BytesOf(bytes, [b]) == bytes(b) + none && bytes(b) + none == bytes(b);
  }

  lemma EchoWritten()
    ensures ProgramOut(EchoProgram()) == ProgramBytes(EchoProgram()) && !AllInPlace(EchoKernels())
  {
    var ks := EchoKernels();
    ShortName(65);
    ShortName(66);
    HeapsCancel(ks[0].header, [65, 0], ks[1].header, [66, 0], 9, 7);
    TwoKernels(KernelOut, ks[0], ks[1]);
    TwoKernels(KernelBytes, ks[0], ks[1]);
  }

  lemma EchoUnresized()
    ensures ResizeProgram(EchoProgram()) == EchoProgram()
  {
    var ks := EchoKernels();
    ShortName(65);
    ShortName(66);
    NoSizeName(NameOf([65, 0]));
    NoSizeName(NameOf([66, 0]));
    assert ks[1..] == [ks[1]] && ks[1..][1..] == [];
    assert ResizeKernel(ks[0]) == ks[0] && ResizeKernel(ks[1]) == ks[1];
    assert ResizeKernels(ks) == [ks[0]] + ResizeKernels([ks[1]]);
  }

  /** A binary that comes back byte for byte, although neither kernel has its heaps in place. */
  lemma EchoBinary()
    ensures ReadProgram(HEAP_FORMATS, ProgramBytes(EchoProgram())) == Parsed(EchoProgram(), [])
    ensures Encode(ProgramFiles(map[], EchoKernels()), Join(ProgramLines(EchoProgram())))
      == Some(ProgramBytes(EchoProgram()))
    ensures !AllInPlace(EchoKernels())
  {
    var p := EchoProgram();
    EchoProgramOk();
    ReadProgramBack(HEAP_FORMATS, p, []);
    assert ProgramBytes(p) + [] == ProgramBytes(p);
    HeapFormatsPlain();
    EchoNames();
    ReadProgramPlain(HEAP_FORMATS, p);
    ReadWritable(HEAP_FORMATS, p);
    EncodePrinted(p, ProgramFiles(map[], p.kernels));
    EchoUnresized();
    EchoWritten();
  }
}

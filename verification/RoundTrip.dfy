/** The assembler undoes the disassembler: exactly when, and up to which bytes. */
module RoundTrip {
  import opened Bytes
  import opened Text
  import opened PatchBinary
  import opened PatchText
  import opened BinaryEncoder
  import opened SizeCorrection
  import opened ProgramCorrection
  import opened KernelRoundTrip

  // ----- the name -------------------------------------------------------------------------

  /** Nothing but NULs after the first NUL. */
  predicate Padded(area: seq<byte>) {
    forall i :: |NameOf(area)| <= i < |area| ==> area[i] == 0
  }

  lemma {:induction false} NameCharsAre(area: seq<byte>)
    ensures |NameOf(area)| <= |area| && Chars(NameOf(area)) == area[..|NameOf(area)|]
  {
    if area != [] && area[0] != 0 {
      NameCharsAre(area[1..]);
      var n := |NameOf(area[1..])|;
      assert NameOf(area)[1..] == NameOf(area[1..]);
      assert area[..n + 1] == [area[0]] + area[1..][..n];
    }
  }

  /** A name area comes back exactly if it is padded with NULs. */
  lemma NameWrittenIff(area: seq<byte>)
    ensures |NameBytes(NameOf(area), |area|)| == |area|
    ensures NameBytes(NameOf(area), |area|) == area <==> Padded(area)
  {
    var n, out := |NameOf(area)|, NameBytes(NameOf(area), |area|);
    NameCharsAre(area);
    assert forall i :: 0 <= i < n ==> out[i] == area[i];
    assert forall i :: n <= i < |area| ==> out[i] == 0;
    assert out == area <==> forall i :: n <= i < |area| ==> out[i] == area[i];
  }

  // ----- the heap files -------------------------------------------------------------------

  lemma EndsDiffer(a: string, s: string, b: string, t: string, d: nat)
    requires 0 < d <= |s| && d <= |t| && s[|s| - d] != t[|t| - d]
    ensures a + s != b + t
  {
    assert (a + s)[|a + s| - d] == s[|s| - d];
    assert (b + t)[|b + t| - d] == t[|t| - d];
  }

  /** The four files of a kernel are never one of another kind, whatever the names. */
  lemma FilesDiffer(a: string, b: string)
    ensures KernelHeapFile(a) != GeneralHeapFile(b) && KernelHeapFile(a) != DynamicHeapFile(b)
      && KernelHeapFile(a) != SurfaceHeapFile(b)
    ensures GeneralHeapFile(a) != DynamicHeapFile(b) && GeneralHeapFile(a) != SurfaceHeapFile(b)
    ensures DynamicHeapFile(a) != SurfaceHeapFile(b)
  {
    EndsDiffer(a, "_KernelHeap.bin", b, "_GeneralStateHeap.bin", 9);
    EndsDiffer(a, "_KernelHeap.bin", b, "_DynamicStateHeap.bin", 9);
    EndsDiffer(a, "_KernelHeap.bin", b, "_SurfaceStateHeap.bin", 9);
    EndsDiffer(a, "_GeneralStateHeap.bin", b, "_DynamicStateHeap.bin", 14);
    EndsDiffer(a, "_GeneralStateHeap.bin", b, "_SurfaceStateHeap.bin", 14);
    EndsDiffer(a, "_DynamicStateHeap.bin", b, "_SurfaceStateHeap.bin", 14);
  }

  lemma SameEnd(a: string, b: string, s: string)
    ensures a + s == b + s ==> a == b
  {
    if a + s == b + s {
      assert a == (a + s)[..|a|] && b == (b + s)[..|b|];
    }
  }

  lemma SameFiles(a: string, b: string)
    ensures KernelHeapFile(a) == KernelHeapFile(b) ==> a == b
    ensures GeneralHeapFile(a) == GeneralHeapFile(b) ==> a == b
    ensures DynamicHeapFile(a) == DynamicHeapFile(b) ==> a == b
    ensures SurfaceHeapFile(a) == SurfaceHeapFile(b) ==> a == b
  {
    SameEnd(a, b, "_KernelHeap.bin");
    SameEnd(a, b, "_GeneralStateHeap.bin");
    SameEnd(a, b, "_DynamicStateHeap.bin");
    SameEnd(a, b, "_SurfaceStateHeap.bin");
  }

  /** The files of a kernel after it was dumped, and all others as before. */
  lemma KernelFilesAre(dump: Dump, k: Kernel, other: string)
    ensures var d, name := KernelFiles(dump, k), NameOf(k.nameArea);
      && name + "_KernelHeap.bin" in d && d[name + "_KernelHeap.bin"] == k.kernelHeap
      && name + "_DynamicStateHeap.bin" in d && d[name + "_DynamicStateHeap.bin"] == k.dynamicHeap
      && name + "_SurfaceStateHeap.bin" in d && d[name + "_SurfaceStateHeap.bin"] == k.surfaceHeap
      && (k.generalHeap != [] ==>
           name + "_GeneralStateHeap.bin" in d && d[name + "_GeneralStateHeap.bin"] == (k.generalHeap + k.dynamicHeap)[..|k.dynamicHeap|])
    ensures var d, name := KernelFiles(dump, k), NameOf(k.nameArea);
      other !in {name + "_KernelHeap.bin", name + "_GeneralStateHeap.bin", name + "_DynamicStateHeap.bin", name + "_SurfaceStateHeap.bin"}
        || (other == name + "_GeneralStateHeap.bin" && k.generalHeap == []) ==>
      (other in d <==> other in dump) && (other in d ==> d[other] == dump[other])
  {
    FilesDiffer(NameOf(k.nameArea), NameOf(k.nameArea));
  }

  /** The assembler needs three files of a kernel; a fourth one, if it is there, comes first. */
  lemma HeapBytesIs(dump: Dump, name: string)
    ensures HeapBytes(dump, name).None? <==>
      name + "_KernelHeap.bin" !in dump || name + "_DynamicStateHeap.bin" !in dump || name + "_SurfaceStateHeap.bin" !in dump
    ensures HeapBytes(dump, name).None? || HeapBytes(dump, name).value ==
      (if name + "_GeneralStateHeap.bin" in dump then dump[name + "_GeneralStateHeap.bin"] else [])
        + dump[name + "_KernelHeap.bin"] + dump[name + "_DynamicStateHeap.bin"] + dump[name + "_SurfaceStateHeap.bin"]
  {
  }

  /** What is dumped of a general state heap: as many bytes as the dynamic one has. */
  function GeneralDumped(k: Kernel): seq<byte> {
    if k.generalHeap == [] then [] else (k.generalHeap + k.dynamicHeap)[..|k.dynamicHeap|]
  }

  /** The dump holds the heaps of a kernel, and a general state heap only if the kernel has one. */
  predicate Holds(dump: Dump, k: Kernel) {
    var name := NameOf(k.nameArea);
    && KernelHeapFile(name) in dump && dump[KernelHeapFile(name)] == k.kernelHeap
    && DynamicHeapFile(name) in dump && dump[DynamicHeapFile(name)] == k.dynamicHeap
    && SurfaceHeapFile(name) in dump && dump[SurfaceHeapFile(name)] == k.surfaceHeap
    && (k.generalHeap == [] ==> GeneralHeapFile(name) !in dump)
    && (k.generalHeap != [] ==> GeneralHeapFile(name) in dump && dump[GeneralHeapFile(name)] == GeneralDumped(k))
  }

  /** Kernels of one name share their files, so their heaps must be the same. */
  predicate Compatible(k: Kernel, l: Kernel) {
    NameOf(k.nameArea) == NameOf(l.nameArea) ==>
      k.kernelHeap == l.kernelHeap && k.generalHeap == l.generalHeap && k.dynamicHeap == l.dynamicHeap
      && k.surfaceHeap == l.surfaceHeap
  }

  /** Equal names only with equal heaps. */
  predicate Dumpable(ks: seq<Kernel>) {
    forall i, j :: 0 <= i < |ks| && 0 <= j < |ks| ==> Compatible(ks[i], ks[j])
  }

  /** No file stands for a general state heap the kernel does not have. */
  predicate NoneLeftOver(dump: Dump, k: Kernel) {
    k.generalHeap == [] ==> GeneralHeapFile(NameOf(k.nameArea)) !in dump
  }

  lemma DumpedHolds(dump: Dump, k: Kernel)
    requires NoneLeftOver(dump, k)
    ensures Holds(KernelFiles(dump, k), k)
  {
    FilesDiffer(NameOf(k.nameArea), NameOf(k.nameArea));
  }

  lemma StillNoneLeftOver(dump: Dump, k: Kernel, l: Kernel)
    requires NoneLeftOver(dump, k) && Compatible(k, l)
    ensures NoneLeftOver(KernelFiles(dump, l), k)
  {
    var a, b := NameOf(k.nameArea), NameOf(l.nameArea);
    FilesDiffer(a, b);
    FilesDiffer(b, a);
    SameFiles(a, b);
  }

  lemma HoldsStill(dump: Dump, k: Kernel, l: Kernel)
    requires Holds(dump, k) && Compatible(k, l)
    ensures Holds(KernelFiles(dump, l), k)
  {
    var a, b := NameOf(k.nameArea), NameOf(l.nameArea);
    FilesDiffer(a, b);
    FilesDiffer(b, a);
    SameFiles(a, b);
  }

  lemma {:induction false} HoldsThrough(dump: Dump, ks: seq<Kernel>, k: Kernel)
    requires Holds(dump, k) && forall i :: 0 <= i < |ks| ==> Compatible(k, ks[i])
    ensures Holds(ProgramFiles(dump, ks), k)
    decreases |ks|
  {
    if ks != [] {
      HoldsStill(dump, k, ks[0]);
      HoldsThrough(KernelFiles(dump, ks[0]), ks[1..], k);
    }
  }

  /** In the end the dump holds the heaps of every kernel. */
  lemma {:induction false} DumpHolds(dump: Dump, ks: seq<Kernel>, i: nat)
    requires Dumpable(ks) && i < |ks| && NoneLeftOver(dump, ks[i])
    ensures Holds(ProgramFiles(dump, ks), ks[i])
    decreases |ks|
  {
    if i == 0 {
      DumpedHolds(dump, ks[0]);
      HoldsThrough(KernelFiles(dump, ks[0]), ks[1..], ks[0]);
    } else {
      StillNoneLeftOver(dump, ks[i], ks[0]);
      DumpHolds(KernelFiles(dump, ks[0]), ks[1..], i - 1);
    }
  }

  // ----- one kernel, exactly --------------------------------------------------------------

  /** The heaps come back in their place: there is no general one, or swapping it does not show. */
  predicate HeapsInPlace(k: Kernel) {
    k.generalHeap == [] || (|k.generalHeap| == |k.dynamicHeap|
        && k.generalHeap + k.kernelHeap == k.kernelHeap + k.generalHeap)
  }

  /** What is written for the name and heap areas of a kernel whose heaps the dump holds. */
  function AreaOut(k: Kernel): seq<byte> {
    NameBytes(NameOf(k.nameArea), |k.nameArea|) + (GeneralDumped(k) + k.kernelHeap + k.dynamicHeap + k.surfaceHeap)
  }

  lemma HeldArea(dump: Dump, k: Kernel)
    requires Holds(dump, k)
    ensures HeapBytes(dump, NameOf(k.nameArea))
      == Some(GeneralDumped(k) + k.kernelHeap + k.dynamicHeap + k.surfaceHeap)
  {
  }

  lemma HeapsInPlaceIff(g: seq<byte>, k: seq<byte>, d: seq<byte>)
    requires g != []
    ensures (g + d)[..|d|] + k == k + g <==> |g| == |d| && g + k == k + g
  {
    var dumped := (g + d)[..|d|];
    if |g| == |d| {
      assert dumped == g;
    } else {
      assert |dumped + k| != |k + g|;
    }
  }

  /** The name and heap areas come back exactly if the name is padded with NULs and the heaps are in place. */
  lemma AreaWrittenIff(k: Kernel)
    ensures |AreaOut(k)| - |AreaBytes(k)| == |GeneralDumped(k)| - |k.generalHeap|
    ensures AreaOut(k) == AreaBytes(k) <==> Padded(k.nameArea) && HeapsInPlace(k)
  {
    var g := GeneralDumped(k);
    var name, tail := NameBytes(NameOf(k.nameArea), |k.nameArea|), k.dynamicHeap + k.surfaceHeap;
    NameWrittenIff(k.nameArea);
    Assoc(g + k.kernelHeap, k.dynamicHeap, k.surfaceHeap);
    AreaParts(k);
    SameSplit(name, (g + k.kernelHeap) + tail, k.nameArea, (k.kernelHeap + k.generalHeap) + tail);
    SameTail(g + k.kernelHeap, k.kernelHeap + k.generalHeap, tail);
    if k.generalHeap == [] {
      assert [] + k.kernelHeap == k.kernelHeap + [];
    } else {
      HeapsInPlaceIff(k.generalHeap, k.kernelHeap, k.dynamicHeap);
    }
  }

  const SWAPPED: Kernel := Kernel([], [65, 0], [1], [2], [3], [], [])

  /** A kernel heap of 1 and a general one of 2 come back as 2 and 1, with the dynamic one of the same size. */
  lemma SwappedHeaps()
    ensures AreaBytes(SWAPPED) == [65, 0, 1, 2, 3] && AreaOut(SWAPPED) == [65, 0, 2, 1, 3]
  {
    var name := NameOf([65, 0]);
    assert NameOf([0]) == "" && name == "A";
    assert Chars("") == [] && Chars(name) == [65];
    assert Zeros(1) == [0];
    assert [2] + [3] == [2, 3];
  }

  lemma AreaParts(k: Kernel)
    ensures AreaBytes(k) == k.nameArea + ((k.kernelHeap + k.generalHeap) + (k.dynamicHeap + k.surfaceHeap))
  {
    Assoc(k.nameArea, k.kernelHeap, k.generalHeap);
    Assoc(k.nameArea + (k.kernelHeap + k.generalHeap), k.dynamicHeap, k.surfaceHeap);
    Assoc(k.nameArea, k.kernelHeap + k.generalHeap, k.dynamicHeap + k.surfaceHeap);
  }

  // ----- writing a program back -----------------------------------------------------------

  /** A kernel whose text and files stand for it. */
  predicate Writable(dump: Dump, k: Kernel) {
    && PlainKernelHeader(k.header) && PlainTokens(k.tokens) && |k.nameArea| == Lookup(k.header, KERNEL_NAME_SIZE)
    && Holds(dump, k)
  }

  /** What is written for a kernel. */
  function KernelOut(k: Kernel): seq<byte> { ValuesBytes(k.header) + AreaOut(k) + TokensBytes(k.tokens) }

  function ProgramOut(p: Program): seq<byte> {
    ValuesBytes(p.header) + TokensBytes(p.tokens) + BytesOf(KernelOut, p.kernels)
  }

  /**
   * Without the rule that heaps come back in their place, bytes may come back by accident: here a
   * general heap is dumped too long and the next one too short, and the contents make up for it.
   */
  lemma HeapsCancel(h1: seq<Value>, n1: seq<byte>, h2: seq<Value>, n2: seq<byte>, x: byte, e: byte)
    requires Padded(n1) && Padded(n2)
    ensures var u := [e] + (ValuesBytes(h2) + n2);
      var k1, k2 := Kernel(h1, n1, [], [x], u + [e], [], []), Kernel(h2, n2, [], u, [], [], []);
      !HeapsInPlace(k1) && !HeapsInPlace(k2) && KernelOut(k1) + KernelOut(k2) == KernelBytes(k1) + KernelBytes(k2)
  {
    var h := ValuesBytes(h2) + n2;
    var u, front := [e] + h, ValuesBytes(h1) + n1 + [x];
    TooLong(h1, n1, x, e, u);
    TooShort(h2, n2, u);
    Assoc(front + u, u + [e], h);
    Assoc(u, [e], h);
    Assoc(front, u + [e], h + u);
    Assoc(u, [e], h + u);
    Assoc([e], h, u);
    Assoc(front, u, u + u);
  }

  lemma TooLong(h: seq<Value>, n: seq<byte>, x: byte, e: byte, u: seq<byte>)
    requires Padded(n)
    ensures var k, front := Kernel(h, n, [], [x], u + [e], [], []), ValuesBytes(h) + n + [x];
      KernelBytes(k) == front + (u + [e]) && KernelOut(k) == front + u + (u + [e])
  {
    var k, longer := Kernel(h, n, [], [x], u + [e], [], []), [x] + u + (u + [e]);
    OneTooLong(x, u, e);
    AreaOfPadded(k, longer);
    Assoc(ValuesBytes(h), n, longer);
    Assoc(ValuesBytes(h) + n, [x], u + (u + [e]));
    Assoc([x], u, u + [e]);
    Assoc(ValuesBytes(h) + n + [x], u, u + [e]);
    Assoc(ValuesBytes(h), n, [x]);
    Assoc(ValuesBytes(h), n + [x], u + [e]);
  }

  lemma OneTooLong(x: byte, u: seq<byte>, e: byte)
    ensures ([x] + (u + [e]))[..|u + [e]|] == [x] + u
  {
  }

  lemma AreaOfPadded(k: Kernel, heaps: seq<byte>)
    requires Padded(k.nameArea) && k.surfaceHeap == [] && heaps == GeneralDumped(k) + k.kernelHeap + k.dynamicHeap
    ensures AreaOut(k) == k.nameArea + heaps
  {
    NameWrittenIff(k.nameArea);
    assert heaps + [] == heaps;
  }

  lemma TooShort(h: seq<Value>, n: seq<byte>, u: seq<byte>)
    requires Padded(n) && u != []
    ensures var k := Kernel(h, n, [], u, [], [], []);
      KernelBytes(k) == ValuesBytes(h) + n + u && KernelOut(k) == ValuesBytes(h) + n
  {
    NameWrittenIff(n);
    assert GeneralDumped(Kernel(h, n, [], u, [], [], [])) == [];
  }

  lemma EncodeOne(dump: Dump, n: nat, k: Kernel, rest: seq<string>)
    requires Writable(dump, k)
    ensures EncodeLines(dump, KernelLines(n, k) + rest) == Prepend(KernelOut(k), EncodeLines(dump, rest))
  {
    var lines, head := KernelLines(n, k) + rest, ValuesBytes(k.header) + AreaOut(k);
    HeldArea(dump, k);
    EncodeBody(dump, k, rest);
    TitleAndBody(n, k, rest);
    KernelTitleMarked(n);
    EncodeTitle(dump, KernelTitle(n), KernelBody(k) + rest, head, TokensLines(k.tokens) + rest);
    TokensWritten(k.tokens);
    EncodePlain(dump, TokensLines(k.tokens), rest);
    PrependTwice(head, TokensBytes(k.tokens), EncodeLines(dump, rest));
  }

  lemma TitleAndBody(n: nat, k: Kernel, rest: seq<string>)
    ensures KernelLines(n, k) + rest == [KernelTitle(n)] + (KernelBody(k) + rest)
  {
    Assoc([KernelTitle(n)], KernelBody(k), rest);
  }

  lemma EncodeTitle(dump: Dump, title: string, body: seq<string>, bytes: seq<byte>, rest: seq<string>)
    requires Contains(title, KERNEL_MARK) && EncodeKernel(dump, 0, body) == Emitted(bytes, rest)
    ensures EncodeLines(dump, [title] + body) == Prepend(bytes, EncodeLines(dump, rest))
  {
    assert ([title] + body)[1..] == body;
  }

  lemma {:induction false} EncodeKernels(dump: Dump, n: nat, ks: seq<Kernel>)
    requires forall i :: 0 <= i < |ks| ==> Writable(dump, ks[i])
    ensures EncodeLines(dump, KernelsLines(n, ks)) == Some(BytesOf(KernelOut, ks))
    decreases |ks|
  {
    if ks != [] {
      assert Writable(dump, ks[0]);
      KernelsLinesCons(n, ks);
      EncodeOne(dump, n, ks[0], KernelsLines(n + 1, ks[1..]));
      EncodeKernels(dump, n + 1, ks[1..]);
    }
  }

  lemma ProgramTitleWritten()
    ensures PlainBytes(["ProgramBinaryHeader:"]) == Some([])
  {
    assert "ProgramBinaryHeader:"[19] == ':';
    PlainBytesOne("ProgramBinaryHeader:", []);
  }

  /** A printed program is written as its headers and lists, with what comes back of each kernel's areas. */
  lemma EncodeProgram(dump: Dump, p: Program)
    requires PlainValues(p.header) && PlainTokens(p.tokens)
      && forall i :: 0 <= i < |p.kernels| ==> Writable(dump, p.kernels[i])
    ensures EncodeLines(dump, ProgramLines(p)) == Some(ProgramOut(p))
  {
    var title, a, b, c := ["ProgramBinaryHeader:"], ValuesLines(p.header), TokensLines(p.tokens), KernelsLines(0,
        p.kernels);
    ProgramTitleWritten();
    ValuesWritten(p.header);
    TokensWritten(p.tokens);
    PlainBytesAppend(title, a, [], ValuesBytes(p.header));
    assert [] + ValuesBytes(p.header) == ValuesBytes(p.header);
    PlainBytesAppend(title + a, b, ValuesBytes(p.header), TokensBytes(p.tokens));
    EncodePlain(dump, title + a + b, c);
    EncodeKernels(dump, 0, p.kernels);
  }
}

/** The size correction on the whole text of a program: it sets each size to that of the listed tokens. */
module ProgramCorrection {
  import opened Arithmetic
  import opened Bytes
  import opened Text
  import opened PatchBinary
  import opened PatchText
  import opened BinaryEncoder
  import opened LineRoundTrip
  import opened SizeCorrection

  // ----- sections with corrected sizes ----------------------------------------------------

  /** The last size field set to x. */
  function SetSize(vs: seq<Value>, x: nat): (r: seq<Value>)
    ensures |r| == |vs|
  {
    if vs == [] then []
    else
      var n := |vs| - 1;
      if vs[n].field.name == PATCH_LIST_SIZE then vs[..n] + [Value(vs[n].field, x)] else SetSize(vs[..n], x) + [vs[n]]
  }

  function ResizeHeader(vs: seq<Value>, ts: seq<Token>): (r: seq<Value>)
    ensures |r| == |vs|
  {
    if Listed(ts) == [] then vs else SetSize(vs, |TokensBytes(Listed(ts))|)
  }

  /** The name of the kernel is taken for an identified token. */
  predicate NameMarked(k: Kernel) { Contains(NameOf(k.nameArea), PATCH_TOKEN) }

  /** After a name that is taken for a token all tokens are counted. */
  function ResizeKernel(k: Kernel): Kernel {
    k.(header := if NameMarked(k) then SetSize(k.header, |TokensBytes(k.tokens)|) else ResizeHeader(k.header, k.tokens))
  }

  function ResizeKernels(ks: seq<Kernel>): seq<Kernel> {
    if ks == [] then [] else [ResizeKernel(ks[0])] + ResizeKernels(ks[1..])
  }

  function ResizeProgram(p: Program): Program {
    Program(ResizeHeader(p.header, p.tokens), p.tokens, ResizeKernels(p.kernels))
  }

  /** A header and a patch list, with a size field for the list unless it is empty. */
  predicate PlainSection(vs: seq<Value>, ts: seq<Token>) {
    PlainHeader(vs) && PlainTokens(ts) && |TokensBytes(ts)| < TWO_32 && (ts != [] ==> HasSize(vs))
  }

  predicate PlainKernel(k: Kernel) {
    PlainSection(k.header, k.tokens) && PlainKernelName(k.header, NameOf(k.nameArea))
  }

  /** A name on one line that is not taken for a size; where it is taken for a token, there is a size to correct. */
  predicate PlainKernelName(header: seq<Value>, name: string) {
    !Contains(name, PATCH_LIST_SIZE) && '\n' !in name && (Contains(name, PATCH_TOKEN) ==> HasSize(header))
  }

  predicate PlainKernels(ks: seq<Kernel>) {
    forall i :: 0 <= i < |ks| ==> PlainKernel(ks[i])
  }

  predicate PlainProgram(p: Program) {
    PlainSection(p.header, p.tokens) && PlainKernels(p.kernels)
  }

  // ----- the size line --------------------------------------------------------------------

  predicate HasSize(vs: seq<Value>) {
    vs != [] && (vs[|vs| - 1].field.name == PATCH_LIST_SIZE || HasSize(vs[..|vs| - 1]))
  }

  lemma {:induction false} SizeFound(vs: seq<Value>)
    requires Lookup(vs, PATCH_LIST_SIZE) != 0
    ensures HasSize(vs)
  {
    var n := |vs| - 1;
    if vs[n].field.name != PATCH_LIST_SIZE {
      SizeFound(vs[..n]);
    }
  }

  lemma {:induction false} SizeFits(vs: seq<Value>)
    requires PlainHeader(vs) && HasSize(vs)
    ensures Lookup(vs, PATCH_LIST_SIZE) < TWO_32
  {
    var n := |vs| - 1;
    if vs[n].field.name == PATCH_LIST_SIZE {
      assert PlainValue(vs[n]) && PlainSizeField(vs[n].field);
      SelfContained(PATCH_LIST_SIZE);
      Pow256Sizes();
    } else {
      SizeFits(vs[..n]);
    }
  }

  lemma SelfContained(s: string)
    ensures Contains(s, s)
  {
    assert OccursAt(s, s, 0);
  }

  lemma SizeFieldIs(v: Value)
    requires PlainSizeField(v.field) && v.field.name == PATCH_LIST_SIZE
    ensures v == NumberValue(PATCH_LIST_SIZE, v.value)
  {
    SelfContained(PATCH_LIST_SIZE);
  }

  /** SizePos is that of the size that counts. */
  lemma {:induction false} SizePosField(vs: seq<Value>, i: nat, pos: nat)
    requires HasSize(vs) && pos <= i
    ensures i <= SizePos(vs, i, pos) < i + |vs|
    ensures var v := vs[SizePos(vs, i, pos) - i];
      v.field.name == PATCH_LIST_SIZE && v.value == Lookup(vs, PATCH_LIST_SIZE)
  {
    var n := |vs| - 1;
    if vs[n].field.name != PATCH_LIST_SIZE {
      SizePosField(vs[..n], i, pos);
    }
  }

  lemma SizeLineAt(vs: seq<Value>, i: nat, pos: nat)
    requires PlainHeader(vs) && HasSize(vs) && pos <= i
    ensures i <= SizePos(vs, i, pos) < i + |vs|
    ensures ValuesLines(vs)[SizePos(vs, i, pos) - i]
      == FieldLine(NumberValue(PATCH_LIST_SIZE, Lookup(vs, PATCH_LIST_SIZE)))
  {
    SizePosField(vs, i, pos);
    var at := SizePos(vs, i, pos) - i;
    assert vs[at] == NumberValue(PATCH_LIST_SIZE, Lookup(vs, PATCH_LIST_SIZE)) by { SizeFieldIs(vs[at]); }
    ValuesLinesAt(vs, at);
  }

  /** A new size changes that line and no other. */
  lemma {:induction false} SetSizeLines(vs: seq<Value>, x: nat, i: nat, pos: nat, at: nat)
    requires PlainHeader(vs) && HasSize(vs) && pos <= i && i + at == SizePos(vs, i, pos) && at < |vs|
    ensures ValuesLines(SetSize(vs, x)) == ValuesLines(vs)[at := FieldLine(NumberValue(PATCH_LIST_SIZE, x))]
  {
    var n, line := |vs| - 1, FieldLine(NumberValue(PATCH_LIST_SIZE, x));
    ValuesLinesFront(vs);
    ValuesLinesFront(SetSize(vs, x));
    if vs[n].field.name == PATCH_LIST_SIZE {
      SizeFieldIs(vs[n]);
      assert SetSize(vs, x) == vs[..n] + [NumberValue(PATCH_LIST_SIZE, x)];
      assert ValuesLines(vs)[n := line] == ValuesLines(vs[..n]) + [line];
    } else {
      SizePosField(vs[..n], i, pos);
      SetSizeLines(vs[..n], x, i, pos, at);
      assert SetSize(vs, x)[..n] == SetSize(vs[..n], x);
      UpdateFront(ValuesLines(vs[..n]), FieldLine(vs[n]), at, line);
    }
  }

  lemma UpdateFront(front: seq<string>, last: string, at: nat, line: string)
    requires at < |front|
    ensures (front + [last])[at := line] == front[at := line] + [last]
  {
  }

  // ----- one section ----------------------------------------------------------------------

  lemma {:induction false} ListedBytes(ts: seq<Token>)
    ensures |TokensBytes(Listed(ts))| <= |TokensBytes(ts)|
    ensures Listed(ts) == ts || |TokensBytes(Listed(ts))| < |TokensBytes(ts)|
  {
    if ts != [] && ts[0].title.None? {
      ListedBytes(ts[1..]);
      assert |TokenBytes(ts[0])| >= 8;
    }
  }

  lemma UpdateAt(lines: seq<string>, i: nat, part: seq<string>, at: nat, line: string)
    requires At(lines, i, part) && at < |part|
    ensures At(lines[i + at := line], i, part[at := line])
  {
    assert lines[i + at := line][i..i + |part|] == lines[i..i + |part|][at := line];
  }

  /** What lies behind a changed line stays in place. */
  lemma StillAt(lines: seq<string>, p: nat, line: string, i: nat, part: seq<string>)
    requires p < i && At(lines, i, part)
    ensures At(lines[p := line], i, part)
  {
    assert lines[p := line][i..i + |part|] == lines[i..i + |part|];
  }

  /** Where the scan stands after the header and the lines between it and the patch list. */
  lemma FixFront(lines: seq<string>, i: nat, vs: seq<Value>, mid: seq<string>, pos: nat, t: nat)
    requires PlainHeader(vs) && AllUnmarked(mid)
    requires At(lines, i, ValuesLines(vs)) && At(lines, i + |vs|, mid) && t == i + |vs| + |mid| && pos <= i
    ensures Fix(lines, i, pos) == Fix(lines, t, SizePos(vs, i, pos))
  {
    FixHeader(lines, i, vs, pos, i + |vs|);
    FixPasses(lines, i + |vs|, mid, SizePos(vs, i, pos), t);
  }

  /** The line the correction replaces is the size line of the header. */
  lemma SizeLineOf(lines: seq<string>, i: nat, vs: seq<Value>, pos: nat, size: nat)
    requires PlainHeader(vs) && HasSize(vs) && At(lines, i, ValuesLines(vs)) && pos <= i && size < TWO_32
    ensures i <= SizePos(vs, i, pos) < i + |vs| <= |lines|
    ensures Corrected(lines[SizePos(vs, i, pos)], size) == Some(FieldLine(NumberValue(PATCH_LIST_SIZE, size)))
  {
    var was := Lookup(vs, PATCH_LIST_SIZE);
    SizeFits(vs);
    SizeLineAt(vs, i, pos);
    AtLine(lines, i, ValuesLines(vs), SizePos(vs, i, pos) - i);
    SizeValuePlain(was);
    CorrectedField(NumberValue(PATCH_LIST_SIZE, was), size);
  }

  lemma SizeValuePlain(n: nat)
    requires n < TWO_32
    ensures PlainValue(NumberValue(PATCH_LIST_SIZE, n))
  {
    Pow256Sizes();
    SizeNamePlain();
  }

  lemma SizeNamePlain()
    ensures PlainName(PATCH_LIST_SIZE)
  {
    MissingChar(PATCH_LIST_SIZE, HEX, 'H');
  }

  function SectionLines(vs: seq<Value>, mid: seq<string>, ts: seq<Token>): (r: seq<string>)
    ensures |r| == |vs| + |mid| + |TokensLines(ts)|
  {
    ValuesLines(vs) + (mid + TokensLines(ts))
  }

  /** Three parts that follow one another from line i to line j. */
  predicate Parts(lines: seq<string>, i: nat, a: seq<string>, b: seq<string>, c: seq<string>, j: nat) {
    At(lines, i, a) && At(lines, i + |a|, b) && At(lines, i + |a| + |b|, c) && j == i + |a| + |b| + |c|
  }

  /** The lines from i to j are those of a section. */
  predicate Section(lines: seq<string>, i: nat, vs: seq<Value>, mid: seq<string>, ts: seq<Token>, j: nat) {
    Parts(lines, i, ValuesLines(vs), mid, TokensLines(ts), j)
  }

  lemma PartsJoined(lines: seq<string>, i: nat, a: seq<string>, b: seq<string>, c: seq<string>, j: nat)
    requires j == i + |a| + |b| + |c|
    ensures Parts(lines, i, a, b, c, j) <==> At(lines, i, a + (b + c))
  {
    if Parts(lines, i, a, b, c, j) {
      AtJoined(lines, i + |a|, b, c);
      AtJoined(lines, i, a, b + c);
    }
    if At(lines, i, a + (b + c)) {
      AtParts(lines, i, a, b + c);
      AtParts(lines, i + |a|, b, c);
    }
  }

  lemma AtJoined(lines: seq<string>, i: nat, a: seq<string>, b: seq<string>)
    requires At(lines, i, a) && At(lines, i + |a|, b)
    ensures At(lines, i, a + b)
  {
    var m, n := i + |a|, i + |a| + |b|;
    assert lines[i..n] == lines[i..m] + lines[m..n];
  }

  predicate AllUnmarked(lines: seq<string>) { forall k :: 0 <= k < |lines| ==> Unmarked(lines[k]) }

  /** The scan stands before a section that ends with the text or before a title. */
  predicate Ready(lines: seq<string>, i: nat, vs: seq<Value>, mid: seq<string>, ts: seq<Token>, pos: nat, j: nat) {
    PlainSection(vs, ts) && Section(lines, i, vs, mid, ts, j) && AllUnmarked(mid) && pos <= i && Ended(lines, j)
      && (j < |lines| ==> Unmarked(lines[j]))
  }

  /** It comes to the patch list with the size line of the header at hand. */
  lemma SectionFront(lines: seq<string>, i: nat, vs: seq<Value>, mid: seq<string>, ts: seq<Token>, pos: nat, j: nat,
      t: nat)
    requires Ready(lines, i, vs, mid, ts, pos, j) && t == i + |vs| + |mid|
    ensures SizePos(vs, i, pos) <= t <= |lines| && Fix(lines, i, pos) == Fix(lines, t, SizePos(vs, i, pos))
  {
    FixFront(lines, i, vs, mid, pos, t);
  }

  lemma SectionUncounted(lines: seq<string>, i: nat, vs: seq<Value>, mid: seq<string>, ts: seq<Token>, pos: nat, j: nat)
    requires Ready(lines, i, vs, mid, ts, pos, j) && Listed(ts) == []
    ensures SizePos(vs, i, pos) <= j && Fix(lines, i, pos) == Fix(lines, After(lines, j), SizePos(vs, i, pos))
  {
    var t := i + |vs| + |mid|;
    SectionFront(lines, i, vs, mid, ts, pos, j, t);
    FixUncounted(lines, t, ts, SizePos(vs, i, pos), j);
    FixEnd(lines, j, SizePos(vs, i, pos));
  }

  lemma FixEnd(lines: seq<string>, j: nat, p: nat)
    requires p <= j <= |lines| && (j < |lines| ==> Unmarked(lines[j]))
    ensures Fix(lines, j, p) == Fix(lines, After(lines, j), p)
  {
  }

  lemma SectionSummed(lines: seq<string>, i: nat, vs: seq<Value>, mid: seq<string>, ts: seq<Token>, pos: nat, j: nat)
    requires Ready(lines, i, vs, mid, ts, pos, j) && Listed(ts) != []
    ensures SizePos(vs, i, pos) < j
    ensures Fix(lines, i, pos) == FixedAfter(lines, SizePos(vs, i, pos), |TokensBytes(Listed(ts))|, j)
  {
    var t := i + |vs| + |mid|;
    SectionFront(lines, i, vs, mid, ts, pos, j, t);
    FixCounted(lines, t, ts, SizePos(vs, i, pos), j);
  }

  lemma SectionCounted(lines: seq<string>, i: nat, vs: seq<Value>, mid: seq<string>, ts: seq<Token>, pos: nat, j: nat,
      size: nat, line: string)
    requires Ready(lines, i, vs, mid, ts, pos, j) && Listed(ts) != []
    requires size == |TokensBytes(Listed(ts))| && line == FieldLine(NumberValue(PATCH_LIST_SIZE, size))
    ensures i <= SizePos(vs, i, pos) < i + |vs| <= j
    ensures Fix(lines, i, pos) == Fix(lines[SizePos(vs, i, pos) := line], After(lines, j), SizePos(vs, i, pos))
  {
    ListedBytes(ts);
    SectionSummed(lines, i, vs, mid, ts, pos, j);
    SizeLineOf(lines, i, vs, pos, size);
    FixedAfterIs(lines, SizePos(vs, i, pos), size, j, line);
  }

  lemma FixedAfterIs(lines: seq<string>, p: nat, size: nat, j: nat, line: string)
    requires p < j <= |lines| && size < TWO_32 && Corrected(lines[p], size) == Some(line)
    ensures FixedAfter(lines, p, size, j) == Fix(lines[p := line], After(lines, j), p)
  {
    SmallRemainder(size, TWO_32);
  }

  lemma FirstPartUpdated(lines: seq<string>, i: nat, a: seq<string>, b: seq<string>, c: seq<string>, j: nat,
      p: nat, line: string)
    requires Parts(lines, i, a, b, c, j) && i <= p < i + |a|
    ensures var fixed := lines[p := line];
      fixed[..i] == lines[..i] && fixed[j..] == lines[j..] && Parts(fixed, i, a[p - i := line], b, c, j)
  {
    UpdateAt(lines, i, a, p - i, line);
    StillAt(lines, p, line, i + |a|, b);
    StillAt(lines, p, line, i + |a| + |b|, c);
  }

  lemma SectionFixed(lines: seq<string>, i: nat, vs: seq<Value>, mid: seq<string>, ts: seq<Token>, pos: nat,
      j: nat, size: nat, line: string, p: nat)
    requires PlainHeader(vs) && HasSize(vs) && Section(lines, i, vs, mid, ts, j) && pos <= i
    requires line == FieldLine(NumberValue(PATCH_LIST_SIZE, size)) && i <= p == SizePos(vs, i, pos) < i + |vs| <= |lines|
    ensures lines[p := line][..i] == lines[..i] && lines[p := line][j..] == lines[j..]
    ensures Section(lines[p := line], i, SetSize(vs, size), mid, ts, j)
  {
    SetSizeLines(vs, size, i, pos, p - i);
    FirstPartUpdated(lines, i, ValuesLines(vs), mid, TokensLines(ts), j, p, line);
  }

  lemma ListedHasSize(vs: seq<Value>, ts: seq<Token>)
    requires PlainSection(vs, ts) && Listed(ts) != []
    ensures HasSize(vs)
  {
  }

  /** The scan over a section leaves it with its corrected size, and all around it unchanged. */
  lemma FixSection(lines: seq<string>, i: nat, vs: seq<Value>, mid: seq<string>, ts: seq<Token>, pos: nat, j: nat)
    returns (fixed: seq<string>, p: nat)
    requires Ready(lines, i, vs, mid, ts, pos, j)
    ensures |fixed| == |lines| && fixed[..i] == lines[..i] && fixed[j..] == lines[j..] && p <= j
    ensures Section(fixed, i, ResizeHeader(vs, ts), mid, ts, j)
    ensures Fix(lines, i, pos) == Fix(fixed, After(lines, j), p)
  {
    fixed, p := lines, SizePos(vs, i, pos);
    if Listed(ts) == [] {
      SectionUncounted(lines, i, vs, mid, ts, pos, j);
    } else {
      var size := |TokensBytes(Listed(ts))|;
      var line := FieldLine(NumberValue(PATCH_LIST_SIZE, size));
      SectionCounted(lines, i, vs, mid, ts, pos, j, size, line);
      ListedHasSize(vs, ts);
      SectionFixed(lines, i, vs, mid, ts, pos, j, size, line, p);
      fixed := lines[p := line];
    }
  }

  // ----- a section whose name is taken for a token ----------------------------------------

  lemma MarkedLine(lines: seq<string>, t: nat, name: string, ts: seq<Token>, p: nat, j: nat)
    requires PlainTokens(ts) && p <= t && At(lines, t, [name]) && At(lines, t + 1, TokensLines(ts))
    requires j == t + 1 + |TokensLines(ts)| && Ended(lines, j)
    requires Contains(name, PATCH_TOKEN) && !Contains(name, PATCH_LIST_SIZE)
    ensures Fix(lines, t, p) == FixedAfter(lines, p, |TokensBytes(ts)|, j)
  {
    AtLine(lines, t, [name], 0);
    TokensNoHash(ts);
    NoHashAt(lines, t + 1, TokensLines(ts));
    ListEndAt(lines, t + 1, j);
    TokensListSize(ts);
    assert lines[t + 1..j] == TokensLines(ts);
    FixListStep(lines, t, p, |TokensBytes(ts)|, j);
  }

  lemma MiddleLine(lines: seq<string>, i: nat, a: seq<string>, name: string, c: seq<string>, j: nat, t: nat)
    requires Parts(lines, i, a, [name], c, j) && t == i + |a|
    ensures t < |lines| && lines[t] == name && At(lines, t, [name]) && At(lines, t + 1, c) && j == t + 1 + |c|
  {
    AtLine(lines, t, [name], 0);
  }

  /** The scan comes to the line between a header and its patch list. */
  lemma ToMiddleLine(lines: seq<string>, i: nat, vs: seq<Value>, name: string, ts: seq<Token>, pos: nat, j: nat, t: nat)
    requires PlainHeader(vs) && Section(lines, i, vs, [name], ts, j) && pos <= i && t == i + |vs|
    ensures SizePos(vs, i, pos) <= t <= |lines| && Fix(lines, i, pos) == Fix(lines, t, SizePos(vs, i, pos))
  {
    FixHeader(lines, i, vs, pos, t);
  }

  /** The scan over such a section counts all its tokens. */
  lemma FixMarkedSection(lines: seq<string>, i: nat, vs: seq<Value>, name: string, ts: seq<Token>, pos: nat, j: nat)
    returns (fixed: seq<string>, p: nat)
    requires PlainSection(vs, ts) && HasSize(vs) && Section(lines, i, vs, [name], ts, j) && pos <= i
    requires Contains(name, PATCH_TOKEN) && !Contains(name, PATCH_LIST_SIZE) && Ended(lines, j)
    ensures |fixed| == |lines| && fixed[..i] == lines[..i] && fixed[j..] == lines[j..] && p <= j
    ensures Section(fixed, i, SetSize(vs, |TokensBytes(ts)|), [name], ts, j)
    ensures Fix(lines, i, pos) == Fix(fixed, After(lines, j), p)
  {
    var size, t := |TokensBytes(ts)|, i + |vs|;
    var line := FieldLine(NumberValue(PATCH_LIST_SIZE, size));
    p := SizePos(vs, i, pos);
    MiddleLine(lines, i, ValuesLines(vs), name, TokensLines(ts), j, t);
    ToMiddleLine(lines, i, vs, name, ts, pos, j, t);
    SizeLineOf(lines, i, vs, pos, size);
    MarkedLine(lines, t, name, ts, p, j);
    FixedAfterIs(lines, p, size, j, line);
    SectionFixed(lines, i, vs, [name], ts, pos, j, size, line, p);
    fixed := lines[p := line];
  }

  // ----- kernels and the program ----------------------------------------------------------

  lemma HeaderTitlesUnmarked()
    ensures Unmarked("ProgramBinaryHeader:") && Unmarked("KernelBinaryHeader:")
  {
    MissingChar("ProgramBinaryHeader:", PATCH_LIST_SIZE, 'L');
    MissingChar("KernelBinaryHeader:", PATCH_LIST_SIZE, 'L');
    MissingChar("ProgramBinaryHeader:", PATCH_TOKEN, '_');
    MissingChar("KernelBinaryHeader:", PATCH_TOKEN, '_');
  }

  lemma KernelTitleChar(i: nat, c: char)
    requires DigitValue(c) >= 10 && c !in KERNEL_MARK
    ensures c !in KernelTitle(i)
  {
    ShownChar(i, 10, c);
  }

  lemma KernelTitleUnmarked(i: nat)
    ensures Unmarked(KernelTitle(i))
  {
    KernelTitleChar(i, 'L');
    KernelTitleChar(i, '_');
    MissingChar(KernelTitle(i), PATCH_LIST_SIZE, 'L');
    MissingChar(KernelTitle(i), PATCH_TOKEN, '_');
  }

  lemma KernelTitleMarked(i: nat)
    ensures Contains(KernelTitle(i), KERNEL_MARK)
  {
    ContainsPart("", KERNEL_MARK, Show(i, 10));
    assert "" + KERNEL_MARK == KERNEL_MARK;
  }

  lemma NameWordUnmarked()
    ensures Unmarked("\tKernelName")
  {
    PlainLineUnmarked("\tKernelName");
  }

  /** A name line holds the texts that its name holds. */
  lemma NameLineHolds(name: string, m: string)
    requires m == PATCH_LIST_SIZE || m == PATCH_TOKEN
    ensures Contains("\tKernelName" + " " + name, m) <==> Contains(name, m)
  {
    var word := "\tKernelName";
    NameWordUnmarked();
    AroundSpace(word, name, m);
    if Contains(name, m) { ContainsLater(word + " ", name, m); }
  }

  lemma ContainsLater(a: string, b: string, m: string)
    requires Contains(b, m)
    ensures Contains(a + b, m)
  {
    var i :| 0 <= i <= |b| && OccursAt(b, m, i);
    assert (a + b)[|a| + i..|a| + i + |m|] == b[i..i + |m|];
    assert OccursAt(a + b, m, |a| + i);
  }

  lemma NameLineIs(area: seq<byte>)
    ensures NameLine(area) == "\tKernelName" + " " + NameOf(area)
  {
  }

  lemma KernelsLinesCons(n: nat, ks: seq<Kernel>)
    requires ks != []
    ensures KernelsLines(n, ks) == KernelLines(n, ks[0]) + KernelsLines(n + 1, ks[1..])
    ensures KernelsLines(n, ks)[0] == KernelTitle(n)
  {
  }

  /** The lines of a kernel from its header on, as a section. */
  lemma KernelLinesAre(n: nat, k: Kernel)
    ensures KernelLines(n, k) == [KernelTitle(n), "KernelBinaryHeader:"] + SectionLines(k.header,
      [NameLine(k.nameArea)], k.tokens)
  {
    var h, a, b, c := "KernelBinaryHeader:", ValuesLines(k.header), [NameLine(k.nameArea)], TokensLines(k.tokens);
    KernelBodyIs(k, h, a, b, c);
    Assoc([h] + a, b, c);
    Assoc([h], a, b + c);
    Assoc([KernelTitle(n)], [h], a + (b + c));
  }

  lemma KernelBodyIs(k: Kernel, h: string, a: seq<string>, b: seq<string>, c: seq<string>)
    requires h == "KernelBinaryHeader:" && a == ValuesLines(k.header) && b == [NameLine(k.nameArea)]
      && c == TokensLines(k.tokens)
    ensures KernelBody(k) == [h] + a + b + c
  {
  }

  /** The scan over the kernels that start at line i, from the line after the first title on. */
  lemma {:induction false} FixKernels(lines: seq<string>, i: nat, n: nat, ks: seq<Kernel>, pos: nat)
    requires PlainKernels(ks) && pos <= i <= |lines| && lines[i..] == KernelsLines(n, ks)
    ensures Fix(lines, After(lines, i), pos) == Some(lines[..i] + KernelsLines(n, ResizeKernels(ks)))
    decreases |ks|
  {
    if ks == [] {
      assert lines[..i] + [] == lines;
    } else {
      var j, fixed, p := FixKernel(lines, i, n, ks, pos);
      FixKernels(fixed, j, n + 1, ks[1..], p);
      Assoc(lines[..i], KernelLines(n, ResizeKernel(ks[0])), KernelsLines(n + 1, ResizeKernels(ks[1..])));
      ResizeCons(n, ks);
    }
  }

  lemma ResizeCons(n: nat, ks: seq<Kernel>)
    requires ks != []
    ensures KernelsLines(n, ResizeKernels(ks))
      == KernelLines(n, ResizeKernel(ks[0])) + KernelsLines(n + 1, ResizeKernels(ks[1..]))
  {
    KernelsLinesCons(n, ResizeKernels(ks));
    assert ResizeKernels(ks)[1..] == ResizeKernels(ks[1..]);
  }

  lemma KernelSpan(lines: seq<string>, i: nat, n: nat, ks: seq<Kernel>, j: nat)
    requires i <= |lines| && ks != [] && lines[i..] == KernelsLines(n, ks) && j == i + |KernelLines(n, ks[0])|
    ensures j <= |lines| && lines[j..] == KernelsLines(n + 1, ks[1..]) && At(lines, i, KernelLines(n, ks[0]))
  {
    var a, b := KernelLines(n, ks[0]), KernelsLines(n + 1, ks[1..]);
    KernelsLinesCons(n, ks);
    assert |lines| == i + |a| + |b| && At(lines, i, a + b);
    AtParts(lines, i, a, b);
    assert lines[j..] == lines[j..j + |b|];
  }

  lemma NextTitle(lines: seq<string>, j: nat, n: nat, ks: seq<Kernel>)
    requires j < |lines| && lines[j..] == KernelsLines(n, ks)
    ensures lines[j] == KernelTitle(n)
  {
    KernelsLinesCons(n, ks);
    assert lines[j] == lines[j..][0];
  }

  lemma KernelParts(lines: seq<string>, i: nat, n: nat, k: Kernel, j: nat)
    requires At(lines, i, KernelLines(n, k)) && j == i + |KernelLines(n, k)|
    ensures i + 2 <= j <= |lines| && lines[i] == KernelTitle(n) && lines[i + 1] == "KernelBinaryHeader:"
    ensures Section(lines, i + 2, k.header, [NameLine(k.nameArea)], k.tokens, j)
  {
    KernelLinesAre(n, k);
    var head := [KernelTitle(n), "KernelBinaryHeader:"];
    AtParts(lines, i, head, SectionLines(k.header, [NameLine(k.nameArea)], k.tokens));
    PartsJoined(lines, i + 2, ValuesLines(k.header), [NameLine(k.nameArea)], TokensLines(k.tokens), j);
    AtLine(lines, i, head, 0);
    AtLine(lines, i, head, 1);
  }

  lemma HeadAndBody(lines: seq<string>, fixed: seq<string>, i: nat, head: seq<string>, body: seq<string>, j: nat)
    requires i + |head| + |body| == j <= |fixed| && |fixed| == |lines|
    requires fixed[..i + |head|] == lines[..i + |head|] && At(lines, i, head) && At(fixed, i + |head|, body)
    ensures fixed[..j] == lines[..i] + (head + body)
  {
    var m := i + |head|;
    assert lines[..m] == lines[..i] + head;
    assert fixed[..j] == fixed[..m] + body;
    Assoc(lines[..i], head, body);
  }

  lemma KernelFrom(lines: seq<string>, i: nat, n: nat, k: Kernel, fixed: seq<string>, j: nat)
    requires |fixed| == |lines| && i + 2 <= j <= |lines| && fixed[..i + 2] == lines[..i + 2]
    requires lines[i] == KernelTitle(n) && lines[i + 1] == "KernelBinaryHeader:"
    requires Section(fixed, i + 2, k.header, [NameLine(k.nameArea)], k.tokens, j)
    ensures fixed[..j] == lines[..i] + KernelLines(n, k)
  {
    KernelLinesAre(n, k);
    var head := [KernelTitle(n), "KernelBinaryHeader:"];
    assert lines[i..i + 2] == [lines[i], lines[i + 1]];
    PartsJoined(fixed, i + 2, ValuesLines(k.header), [NameLine(k.nameArea)], TokensLines(k.tokens), j);
    HeadAndBody(lines, fixed, i, head, SectionLines(k.header, [NameLine(k.nameArea)], k.tokens), j);
  }

  lemma FixKernel(lines: seq<string>, i: nat, n: nat, ks: seq<Kernel>, pos: nat)
    returns (j: nat, fixed: seq<string>, p: nat)
    requires PlainKernels(ks) && ks != [] && pos <= i <= |lines| && lines[i..] == KernelsLines(n, ks)
    ensures p <= j <= |fixed| == |lines| && fixed[j..] == KernelsLines(n + 1, ks[1..])
    ensures fixed[..j] == lines[..i] + KernelLines(n, ResizeKernel(ks[0]))
    ensures Fix(lines, After(lines, i), pos) == Fix(fixed, After(fixed, j), p)
  {
    var k := ks[0];
    j := i + |KernelLines(n, k)|;
    KernelSpan(lines, i, n, ks, j);
    KernelParts(lines, i, n, k, j);
    if j < |lines| { NextTitle(lines, j, n + 1, ks[1..]); }
    HeaderTitlesUnmarked();
    KernelTitleUnmarked(n + 1);
    KernelTitleMarked(n + 1);
    FixEnd(lines, i + 1, pos);
    fixed, p := FixKernelSection(lines, i + 2, k, pos, j);
    KernelFrom(lines, i, n, ResizeKernel(k), fixed, j);
  }

  lemma FixKernelSection(lines: seq<string>, i: nat, k: Kernel, pos: nat, j: nat) returns (fixed: seq<string>, p: nat)
    requires PlainKernel(k) && Section(lines, i, k.header, [NameLine(k.nameArea)], k.tokens, j) && pos <= i
    requires Ended(lines, j) && (j < |lines| ==> Unmarked(lines[j]))
    ensures |fixed| == |lines| && fixed[..i] == lines[..i] && fixed[j..] == lines[j..] && p <= j
    ensures Section(fixed, i, ResizeKernel(k).header, [NameLine(k.nameArea)], k.tokens, j)
    ensures Fix(lines, i, pos) == Fix(fixed, After(lines, j), p)
  {
    NameLineIs(k.nameArea);
    NameLineHolds(NameOf(k.nameArea), PATCH_LIST_SIZE);
    NameLineHolds(NameOf(k.nameArea), PATCH_TOKEN);
    if NameMarked(k) {
      fixed, p := FixMarkedSection(lines, i, k.header, NameLine(k.nameArea), k.tokens, pos, j);
    } else {
      fixed, p := FixSection(lines, i, k.header, [NameLine(k.nameArea)], k.tokens, pos, j);
    }
  }

  /** The scan over a program comes to its kernels with the size of the first list corrected. */
  lemma FixProgramFront(p: Program, j: nat) returns (fixed: seq<string>, pos: nat)
    requires PlainSection(p.header, p.tokens) && j == 1 + |p.header| + |TokensLines(p.tokens)|
    ensures pos <= j <= |fixed| == |ProgramLines(p)| && fixed[..1] == ProgramLines(p)[..1]
    ensures ProgramLines(p)[0] == "ProgramBinaryHeader:" && fixed[j..] == KernelsLines(0, p.kernels)
    ensures Section(fixed, 1, ResizeHeader(p.header, p.tokens), [], p.tokens, j)
    ensures Fix(ProgramLines(p), 0, 0) == Fix(fixed, After(fixed, j), pos)
  {
    ProgramAt(p, j);
    HeaderTitlesUnmarked();
    KernelTitleUnmarked(0);
    KernelTitleMarked(0);
    FixEnd(ProgramLines(p), 0, 0);
    fixed, pos := FixSection(ProgramLines(p), 1, p.header, [], p.tokens, 0, j);
  }

  /** The correction of a printed program is the print of the program with corrected sizes. */
  lemma FixProgram(p: Program)
    requires PlainProgram(p)
    ensures Fix(ProgramLines(p), 0, 0) == Some(ProgramLines(ResizeProgram(p)))
  {
    var j := 1 + |p.header| + |TokensLines(p.tokens)|;
    var fixed, pos := FixProgramFront(p, j);
    FixKernels(fixed, j, 0, p.kernels, pos);
    ProgramFrom(p, fixed, j);
  }

  /** The name is taken for a size, and is to be corrected, but does not end in a number. */
  predicate SizeName(k: Kernel) {
    && PlainSection(k.header, k.tokens) && Listed(k.tokens) != [] && Contains(NameOf(k.nameArea), PATCH_LIST_SIZE)
    && Corrected(NameLine(k.nameArea), |TokensBytes(Listed(k.tokens))|).None?
  }

  lemma SizeNameLine(lines: seq<string>, i: nat, vs: seq<Value>, name: string, ts: seq<Token>, pos: nat, j: nat)
    requires PlainSection(vs, ts) && Section(lines, i, vs, [name], ts, j) && pos <= i && Ended(lines, j)
    requires Contains(name, PATCH_LIST_SIZE) && Listed(ts) != []
    requires Corrected(name, |TokensBytes(Listed(ts))|).None?
    ensures Fix(lines, i, pos) == None
  {
    var t := i + |vs|;
    MiddleLine(lines, i, ValuesLines(vs), name, TokensLines(ts), j, t);
    ToMiddleLine(lines, i, vs, name, ts, pos, j, t);
    SizeNameStep(lines, t, ts, SizePos(vs, i, pos), j);
  }

  lemma SizeNameStep(lines: seq<string>, t: nat, ts: seq<Token>, p: nat, j: nat)
    requires PlainTokens(ts) && |TokensBytes(ts)| < TWO_32 && Listed(ts) != [] && p <= t < |lines|
    requires At(lines, t + 1, TokensLines(ts)) && j == t + 1 + |TokensLines(ts)| && Ended(lines, j)
    requires Contains(lines[t], PATCH_LIST_SIZE) && Corrected(lines[t], |TokensBytes(Listed(ts))|).None?
    ensures Fix(lines, t, p) == None
  {
    ListedBytes(ts);
    SmallRemainder(|TokensBytes(Listed(ts))|, TWO_32);
    FixCounted(lines, t + 1, ts, t, j);
  }

  lemma SizeNameKernel(lines: seq<string>, i: nat, ks: seq<Kernel>, pos: nat)
    requires ks != [] && SizeName(ks[0]) && pos <= i < |lines| && lines[i..] == KernelsLines(0, ks)
    ensures Fix(lines, i + 1, pos) == None
  {
    var k, j := ks[0], i + |KernelLines(0, ks[0])|;
    KernelSpan(lines, i, 0, ks, j);
    KernelParts(lines, i, 0, k, j);
    if j < |lines| { NextTitle(lines, j, 1, ks[1..]); }
    HeaderTitlesUnmarked();
    KernelTitleMarked(1);
    FixEnd(lines, i + 1, pos);
    NameLineIs(k.nameArea);
    NameLineHolds(NameOf(k.nameArea), PATCH_LIST_SIZE);
    SizeNameLine(lines, i + 2, k.header, NameLine(k.nameArea), k.tokens, pos, j);
  }

  /** A program whose first kernel has such a name is printed as a text the assembler refuses. */
  lemma SizeNameFails(p: Program)
    requires PlainSection(p.header, p.tokens) && p.kernels != [] && SizeName(p.kernels[0])
    ensures Fix(ProgramLines(p), 0, 0) == None
  {
    var j := 1 + |p.header| + |TokensLines(p.tokens)|;
    var lines, pos := FixProgramFront(p, j);
    KernelsLinesCons(0, p.kernels);
    SizeNameKernel(lines, j, p.kernels, pos);
  }

  lemma ProgramLinesAre(p: Program)
    ensures ProgramLines(p) == ["ProgramBinaryHeader:"] + SectionLines(p.header, [], p.tokens) + KernelsLines(0,
      p.kernels)
  {
    assert [] + TokensLines(p.tokens) == TokensLines(p.tokens);
    Assoc(["ProgramBinaryHeader:"], ValuesLines(p.header), TokensLines(p.tokens));
  }

  lemma ProgramAt(p: Program, j: nat)
    requires j == 1 + |p.header| + |TokensLines(p.tokens)|
    ensures var lines := ProgramLines(p);
      && j <= |lines| && lines[0] == "ProgramBinaryHeader:" && lines[j..] == KernelsLines(0, p.kernels)
      && Section(lines, 1, p.header, [], p.tokens, j) && (j < |lines| ==> lines[j] == KernelTitle(0))
  {
    var lines, body := ProgramLines(p), SectionLines(p.header, [], p.tokens);
    ProgramLinesAre(p);
    assert lines[1..j] == body;
    PartsJoined(lines, 1, ValuesLines(p.header), [], TokensLines(p.tokens), j);
    if p.kernels != [] {
      KernelsLinesCons(0, p.kernels);
      assert lines[j] == lines[j..][0];
    }
  }

  lemma ProgramFrom(p: Program, fixed: seq<string>, j: nat)
    requires j <= |fixed| == |ProgramLines(p)| && Section(fixed, 1, ResizeHeader(p.header, p.tokens), [], p.tokens, j)
    requires |fixed| > 0 && fixed[..1] == ProgramLines(p)[..1] && ProgramLines(p)[0] == "ProgramBinaryHeader:"
    ensures fixed[..j] + KernelsLines(0, ResizeKernels(p.kernels)) == ProgramLines(ResizeProgram(p))
  {
    var lines, body := ProgramLines(p), SectionLines(ResizeHeader(p.header, p.tokens), [], p.tokens);
    ProgramLinesAre(ResizeProgram(p));
    assert lines[0..1] == ["ProgramBinaryHeader:"];
    PartsJoined(fixed, 1, ValuesLines(ResizeHeader(p.header, p.tokens)), [], TokensLines(p.tokens), j);
    HeadAndBody(lines, fixed, 0, ["ProgramBinaryHeader:"], body, j);
    assert lines[..0] + (["ProgramBinaryHeader:"] + body) == ["ProgramBinaryHeader:"] + body;
  }

  // ----- correcting twice -----------------------------------------------------------------

  lemma {:induction false} SetSizePlain(vs: seq<Value>, x: nat)
    requires PlainHeader(vs) && HasSize(vs) && x < TWO_32
    ensures PlainHeader(SetSize(vs, x))
  {
    var n := |vs| - 1;
    if vs[n].field.name == PATCH_LIST_SIZE {
      SizeFieldIs(vs[n]);
      SizeValuePlain(x);
    } else {
      SetSizePlain(vs[..n], x);
    }
  }

  lemma {:induction false} SetSizeLookup(vs: seq<Value>, x: nat)
    requires HasSize(vs)
    ensures HasSize(SetSize(vs, x)) && Lookup(SetSize(vs, x), PATCH_LIST_SIZE) == x
  {
    var n := |vs| - 1;
    if vs[n].field.name != PATCH_LIST_SIZE {
      SetSizeLookup(vs[..n], x);
      assert SetSize(vs, x)[..n] == SetSize(vs[..n], x);
    }
  }

  lemma {:induction false} SetSizeTwice(vs: seq<Value>, x: nat)
    ensures SetSize(SetSize(vs, x), x) == SetSize(vs, x)
  {
    if vs != [] {
      var n := |vs| - 1;
      if vs[n].field.name == PATCH_LIST_SIZE {
        assert SetSize(vs, x)[..n] == vs[..n];
      } else {
        SetSizeTwice(vs[..n], x);
        assert SetSize(vs, x)[..n] == SetSize(vs[..n], x);
      }
    }
  }

  lemma SetSizeFits(vs: seq<Value>, x: nat)
    requires PlainHeader(vs) && HasSize(vs) && x < TWO_32
    ensures PlainHeader(SetSize(vs, x)) && HasSize(SetSize(vs, x)) && Lookup(SetSize(vs, x), PATCH_LIST_SIZE) == x
  {
    SetSizePlain(vs, x);
    SetSizeLookup(vs, x);
  }

  lemma ResizeHeaderFits(vs: seq<Value>, ts: seq<Token>)
    requires PlainSection(vs, ts)
    ensures PlainSection(ResizeHeader(vs, ts), ts) && ResizeHeader(ResizeHeader(vs, ts), ts) == ResizeHeader(vs, ts)
  {
    if Listed(ts) != [] {
      ListedBytes(ts);
      SetSizeFits(vs, |TokensBytes(Listed(ts))|);
      SetSizeTwice(vs, |TokensBytes(Listed(ts))|);
    }
  }

  lemma ResizeKernelFits(k: Kernel)
    requires PlainKernel(k)
    ensures PlainKernel(ResizeKernel(k)) && ResizeKernel(ResizeKernel(k)) == ResizeKernel(k)
  {
    if NameMarked(k) {
      SetSizeFits(k.header, |TokensBytes(k.tokens)|);
      SetSizeTwice(k.header, |TokensBytes(k.tokens)|);
    } else {
      ResizeHeaderFits(k.header, k.tokens);
    }
  }

  lemma {:induction false} ResizeKernelsFits(ks: seq<Kernel>)
    requires PlainKernels(ks)
    ensures PlainKernels(ResizeKernels(ks)) && ResizeKernels(ResizeKernels(ks)) == ResizeKernels(ks)
  {
    if ks != [] {
      var k, tail := ResizeKernel(ks[0]), ResizeKernels(ks[1..]);
      assert PlainKernel(ks[0]);
      ResizeKernelFits(ks[0]);
      ResizeKernelsFits(ks[1..]);
      assert ResizeKernels(ks) == [k] + tail && ([k] + tail)[1..] == tail;
    }
  }

  /** The correction of a printed program is idempotent. */
  lemma FixTwice(p: Program)
    requires PlainProgram(p)
    ensures Fix(ProgramLines(p), 0, 0).Some?
    ensures Fix(Fix(ProgramLines(p), 0, 0).value, 0, 0) == Fix(ProgramLines(p), 0, 0)
  {
    FixProgram(p);
    ResizeHeaderFits(p.header, p.tokens);
    ResizeKernelsFits(p.kernels);
    FixProgram(ResizeProgram(p));
  }

  /**
   * The corrected size of a section is the number of bytes written from its first identified token
   * up to the next kernel; it is the size of the whole list exactly if no token comes before that.
   */
  lemma CorrectedSizeIs(vs: seq<Value>, ts: seq<Token>)
    requires PlainSection(vs, ts) && Listed(ts) != []
    ensures Lookup(ResizeHeader(vs, ts), PATCH_LIST_SIZE) == ListSize(TokensLines(Listed(ts)))
      == |TokensBytes(Listed(ts))|
    ensures Lookup(ResizeHeader(vs, ts), PATCH_LIST_SIZE) == |TokensBytes(ts)| <==> ts[0].title.Some?
  {
    ListedBytes(ts);
    ListedPlain(ts);
    TokensListSize(Listed(ts));
    SetSizeFits(vs, |TokensBytes(Listed(ts))|);
    if ts[0].title.None? {
      ListedBytes(ts[1..]);
      assert |TokenBytes(ts[0])| >= 8;
    }
  }
}

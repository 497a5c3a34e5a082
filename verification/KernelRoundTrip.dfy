/** What the assembler writes for the lines of headers, tokens and kernels. */
module KernelRoundTrip {
  import opened Arithmetic
  import opened Bytes
  import opened Text
  import opened PatchBinary
  import opened PatchText
  import opened BinaryEncoder
  import opened LineRoundTrip
  import opened SizeCorrection
  import opened ProgramCorrection

  // ----- lines that open no kernel --------------------------------------------------------

  /** The bytes of lines none of which opens a kernel. */
  function PlainBytes(lines: seq<string>): Option<seq<byte>> {
    if lines == [] then Some([])
    else if '#' in lines[0] || LineBytes(lines[0]).None? then None
    else Prepend(LineBytes(lines[0]).value, PlainBytes(lines[1..]))
  }

  lemma {:induction false} PlainBytesAppend(a: seq<string>, b: seq<string>, x: seq<byte>, y: seq<byte>)
    requires PlainBytes(a) == Some(x) && PlainBytes(b) == Some(y)
    ensures PlainBytes(a + b) == Some(x + y)
  {
    if a == [] {
      assert a + b == b && x + y == y;
    } else {
      var front, tail := LineBytes(a[0]).value, PlainBytes(a[1..]).value;
      assert (a + b)[0] == a[0] && (a + b)[1..] == a[1..] + b;
      PlainBytesAppend(a[1..], b, tail, y);
      Assoc(front, tail, y);
    }
  }

  lemma PlainBytesOne(line: string, x: seq<byte>)
    requires '#' !in line && LineBytes(line) == Some(x)
    ensures PlainBytes([line]) == Some(x)
  {
    assert [line][1..] == [];
    assert PlainBytes([]) == Some([]);
    assert x + [] == x;
  }

  lemma {:induction false} EncodePlain(dump: Dump, a: seq<string>, rest: seq<string>)
    requires PlainBytes(a).Some?
    ensures EncodeLines(dump, a + rest) == Prepend(PlainBytes(a).value, EncodeLines(dump, rest))
  {
    if a == [] {
      assert a + rest == rest;
      PrependNothing(EncodeLines(dump, rest));
    } else {
      var lines := a + rest;
      assert lines[0] == a[0] && lines[1..] == a[1..] + rest;
      MissingChar(a[0], KERNEL_MARK, '#');
      EncodePlain(dump, a[1..], rest);
      PrependTwice(LineBytes(a[0]).value, PlainBytes(a[1..]).value, EncodeLines(dump, rest));
    }
  }

  lemma PrependNothing(t: Option<seq<byte>>)
    ensures Prepend([], t) == t
  {
    if t.Some? { assert [] + t.value == t.value; }
  }

  lemma PrependTwice(a: seq<byte>, b: seq<byte>, t: Option<seq<byte>>)
    ensures Prepend(a, Prepend(b, t)) == Prepend(a + b, t)
  {
    if t.Some? { Assoc(a, b, t.value); }
  }

  lemma {:induction false} ValuesWritten(vs: seq<Value>)
    requires PlainValues(vs)
    ensures PlainBytes(ValuesLines(vs)) == Some(ValuesBytes(vs))
  {
    if vs != [] {
      assert PlainValue(vs[0]);
      FieldLineChar(vs[0], '#');
      FieldLineBytes(vs[0]);
      PlainBytesOne(FieldLine(vs[0]), LE(vs[0].value, vs[0].field.size));
      ValuesWritten(vs[1..]);
      PlainBytesAppend([FieldLine(vs[0])], ValuesLines(vs[1..]), LE(vs[0].value, vs[0].field.size), ValuesBytes(vs[1..]));
    }
  }

  lemma TitleWritten(title: Option<string>)
    requires title.Some? ==> '#' !in title.value
    ensures PlainBytes([TitleLine(title)]) == Some([])
  {
    TitleLineSize(title);
    UnidentifiedTitle();
    PlainBytesOne(TitleLine(title), []);
  }

  lemma NumberWritten(name: string, n: nat)
    requires PlainValue(NumberValue(name, n))
    ensures PlainBytes([FieldLine(NumberValue(name, n))]) == Some(LE(n, 4))
  {
    FieldLineChar(NumberValue(name, n), '#');
    FieldLineBytes(NumberValue(name, n));
    PlainBytesOne(FieldLine(NumberValue(name, n)), LE(n, 4));
  }

  lemma FrontWritten(t: Token)
    requires PlainToken(t)
    ensures PlainBytes(FrontLines(t.title, t.token, t.size, t.values))
      == Some(LE(t.token, 4) + LE(t.size, 4) + ValuesBytes(t.values))
  {
    var title, token, size := TitleLine(t.title), FieldLine(NumberValue("Token", t.token)),
        FieldLine(NumberValue("Size", t.size));
    NumberValuesPlain(t);
    TitleWritten(t.title);
    NumberWritten("Token", t.token);
    NumberWritten("Size", t.size);
    PlainBytesAppend([title], [token], [], LE(t.token, 4));
    assert [] + LE(t.token, 4) == LE(t.token, 4);
    PlainBytesAppend([title] + [token], [size], LE(t.token, 4), LE(t.size, 4));
    assert [title] + [token] + [size] == [title, token, size];
    ValuesWritten(t.values);
    PlainBytesAppend([title, token, size], ValuesLines(t.values), LE(t.token, 4) + LE(t.size, 4), ValuesBytes(t.values));
  }

  lemma RestWritten(hex: seq<byte>)
    ensures PlainBytes(RestLines(hex)) == Some(hex)
  {
    if hex != [] {
      HexLineChar(hex, '#');
      HexLineBytes(hex);
      PlainBytesOne(HexLine(hex), hex);
    }
  }

  /** The lines of a token are written back as its bytes. */
  lemma TokenWritten(t: Token)
    requires PlainToken(t)
    ensures PlainBytes(TokenLines(t)) == Some(TokenBytes(t))
  {
    FrontWritten(t);
    RestWritten(t.hex);
    PlainBytesAppend(FrontLines(t.title, t.token, t.size, t.values), RestLines(t.hex),
                     LE(t.token, 4) + LE(t.size, 4) + ValuesBytes(t.values), t.hex);
  }

  /** A printed patch list is written back byte for byte. */
  lemma {:induction false} TokensWritten(ts: seq<Token>)
    requires PlainTokens(ts)
    ensures PlainBytes(TokensLines(ts)) == Some(TokensBytes(ts))
  {
    if ts != [] {
      assert PlainToken(ts[0]);
      TokenWritten(ts[0]);
      TokensWritten(ts[1..]);
      PlainBytesAppend(TokenLines(ts[0]), TokensLines(ts[1..]), TokenBytes(ts[0]), TokensBytes(ts[1..]));
    }
  }

  // ----- the header of a kernel -----------------------------------------------------------

  predicate EndsWith(s: string, m: string) { |m| <= |s| && s[|s| - |m|..] == m }

  /** No kernel header field but the name size can be taken for it, and none for the name. */
  predicate PlainNameField(field: Field) {
    && !EndsWith(field.name, "KernelName")
    && (Contains(field.name, KERNEL_NAME_SIZE) ==> field.name == KERNEL_NAME_SIZE && field.size == 4)
  }

  predicate PlainKernelHeader(vs: seq<Value>) {
    PlainValues(vs) && forall i :: 0 <= i < |vs| ==> PlainNameField(vs[i].field)
  }

  function NameSizeAfter(vs: seq<Value>, size: nat): nat {
    if vs == [] then size
    else NameSizeAfter(vs[1..], if vs[0].field.name == KERNEL_NAME_SIZE then vs[0].value else size)
  }

  lemma {:induction false} NameSizeAfterLast(vs: seq<Value>, v: Value, size: nat)
    ensures NameSizeAfter(vs + [v], size) == if v.field.name == KERNEL_NAME_SIZE then v.value else NameSizeAfter(vs, size)
    decreases |vs|
  {
    if vs == [] {
      assert vs + [v] == [v] && [v][1..] == [];
    } else {
      assert (vs + [v])[0] == vs[0] && (vs + [v])[1..] == vs[1..] + [v];
      NameSizeAfterLast(vs[1..], v, if vs[0].field.name == KERNEL_NAME_SIZE then vs[0].value else size);
    }
  }

  lemma {:induction false} NameSizeIsLookup(vs: seq<Value>)
    ensures NameSizeAfter(vs, 0) == Lookup(vs, KERNEL_NAME_SIZE)
  {
    if vs != [] {
      var n := |vs| - 1;
      NameSizeIsLookup(vs[..n]);
      NameSizeAfterLast(vs[..n], vs[n], 0);
      assert vs[..n] + [vs[n]] == vs;
    }
  }

  /** A word followed by a space is found only where a space follows it. */
  lemma WordBeforeSpace(a: string, name: string, b: string, m: string)
    requires ' ' !in a && ' ' !in name && ' ' !in b && ' ' !in m && m != [] && m[0] !in a
    ensures Contains(a + " " + (name + " " + b), m + " ") ==> EndsWith(name, m)
  {
    var s := a + " " + (name + " " + b);
    if Contains(s, m + " ") {
      var i :| 0 <= i <= |s| && OccursAt(s, m + " ", i);
      var found, q := s[i..i + |m| + 1], |a| + 1 + |name|;
      assert found == m + " ";
      assert forall k :: 0 <= k <= |m| ==> s[i + k] == found[k];
      assert forall k :: i <= k < i + |m| ==> s[k] == m[k - i];
      SpacesOf(a, name, b);
      assert s[i + |m|] == ' ';
      FirstChar(a, name, b, m, i);
      assert i + |m| == q && i > |a|;
      forall k | 0 <= k < |m| ensures name[|name| - |m| + k] == m[k] {
        CharAt(a, name, b, i + k);
      }
      assert name[|name| - |m|..] == m;
    }
  }

  lemma CharAt(a: string, name: string, b: string, k: nat)
    requires k < |a + " " + (name + " " + b)|
    ensures (a + " " + (name + " " + b))[k] ==
      if k < |a| then a[k] else if k == |a| || k == |a| + 1 + |name| then ' '
      else if k < |a| + 1 + |name| then name[k - |a| - 1] else b[k - |a| - |name| - 2]
  {
  }

  lemma SpacesOf(a: string, name: string, b: string)
    requires ' ' !in a && ' ' !in name && ' ' !in b
    ensures var s := a + " " + (name + " " + b);
      forall k :: 0 <= k < |s| && s[k] == ' ' ==> k == |a| || k == |a| + 1 + |name|
  {
    var s := a + " " + (name + " " + b);
    forall k | 0 <= k < |s| ensures s[k] == ' ' ==> k == |a| || k == |a| + 1 + |name| {
      CharAt(a, name, b, k);
    }
  }

  lemma FirstChar(a: string, name: string, b: string, m: string, i: nat)
    requires m != [] && m[0] !in a && ' ' !in m && i + |m| < |a + " " + (name + " " + b)|
    requires var s := a + " " + (name + " " + b); forall k :: i <= k < i + |m| ==> s[k] == m[k - i]
    ensures i > |a|
  {
    var s := a + " " + (name + " " + b);
    assert s[i] == m[0] && s[|a|] == ' ';
    assert forall k :: 0 <= k < |a| ==> s[k] == a[k] && a[k] != m[0];
    assert forall k :: 0 <= k < |m| ==> m[k] != ' ';
  }

  lemma PlainNameSpaces(name: string)
    requires PlainName(name)
    ensures ' ' !in name
  {
  }

  /** A field line of a kernel header is not taken for the name, and only its size field for the size. */
  lemma KernelFieldLine(v: Value)
    requires PlainValue(v) && PlainNameField(v.field)
    ensures !Contains(FieldLine(v), KERNEL_NAME_MARK)
    ensures Contains(FieldLine(v), KERNEL_NAME_SIZE) <==> v.field.name == KERNEL_NAME_SIZE
  {
    FieldLineParts(v);
    ShownChar(v.field.size, 10, ' ');
    ShownChar(v.field.size, 10, 'K');
    ShownChar(v.value, 10, ' ');
    PlainNameSpaces(v.field.name);
    assert KERNEL_NAME_MARK == "KernelName" + " ";
    WordBeforeSpace("\t" + Show(v.field.size, 10), v.field.name, Show(v.value, 10), "KernelName");
    FieldLineContains(v, KERNEL_NAME_SIZE, 'K');
    if v.field.name == KERNEL_NAME_SIZE {
      ContainsPart("\t" + Show(v.field.size, 10) + " ", KERNEL_NAME_SIZE, " " + Show(v.value, 10));
      FieldLineMarked(v, KERNEL_NAME_SIZE);
    }
  }

  lemma NameSizeRead(v: Value, before: nat)
    requires PlainValue(v) && v.field == Field(4, KERNEL_NAME_SIZE)
    ensures NameSizeOf(FieldLine(v), before) == v.value
  {
    var word, number := "\t" + Show(v.field.size, 10), Show(v.value, 10);
    FieldLineParts(v);
    ShownChar(v.field.size, 10, ' ');
    assert Show(4, 10) == "4";
    IgnoreWord(word, v.field.name + " " + number, 32);
    PlainNameSpaces(v.field.name);
    IgnoreWord(v.field.name, number, 32);
    Pow256Sizes();
    ReadLast("", v.value, 10, TWO_32);
    assert "" + number == number;
  }

  lemma PrependToNothing(t: Emitted)
    ensures PrependTo([], t) == t
  {
    if t.Emitted? { assert [] + t.bytes == t.bytes; }
  }

  lemma PrependToTwice(a: seq<byte>, b: seq<byte>, t: Emitted)
    ensures PrependTo(a, PrependTo(b, t)) == PrependTo(a + b, t)
  {
    if t.Emitted? { Assoc(a, b, t.bytes); }
  }

  lemma KernelFieldStep(dump: Dump, size: nat, v: Value, rest: seq<string>)
    requires PlainValue(v) && PlainNameField(v.field)
    ensures var after := if v.field.name == KERNEL_NAME_SIZE then v.value else size;
      EncodeKernel(dump, size, [FieldLine(v)] + rest)
          == PrependTo(LE(v.value, v.field.size), EncodeKernel(dump, after, rest))
  {
    assert ([FieldLine(v)] + rest)[1..] == rest;
    KernelFieldLine(v);
    FieldLineBytes(v);
    if v.field.name == KERNEL_NAME_SIZE {
      SelfContained(KERNEL_NAME_SIZE);
      NameSizeRead(v, size);
    }
  }

  lemma {:induction false} EncodeHeader(dump: Dump, size: nat, vs: seq<Value>, rest: seq<string>)
    requires PlainKernelHeader(vs)
    ensures EncodeKernel(dump, size, ValuesLines(vs) + rest)
      == PrependTo(ValuesBytes(vs), EncodeKernel(dump, NameSizeAfter(vs, size), rest))
    decreases |vs|
  {
    if vs == [] {
      assert ValuesLines(vs) + rest == rest;
      PrependToNothing(EncodeKernel(dump, size, rest));
    } else {
      var v, after := vs[0], if vs[0].field.name == KERNEL_NAME_SIZE then vs[0].value else size;
      assert PlainValue(v) && PlainNameField(v.field);
      Assoc([FieldLine(v)], ValuesLines(vs[1..]), rest);
      KernelFieldStep(dump, size, v, ValuesLines(vs[1..]) + rest);
      EncodeHeader(dump, after, vs[1..], rest);
      PrependToTwice(LE(v.value, v.field.size), ValuesBytes(vs[1..]), EncodeKernel(dump, NameSizeAfter(vs, size), rest));
    }
  }

  // ----- the name and the heaps -----------------------------------------------------------

  lemma {:induction false} AfterFirstSpace(w: string, rest: string)
    requires ' ' !in w
    ensures AfterSpace(w + " " + rest) == rest
  {
    var s := w + " " + rest;
    if w == [] {
      assert s[1..] == rest;
    } else {
      assert s[0] == w[0] && w[0] in w;
      assert s[1..] == w[1..] + " " + rest;
      AfterFirstSpace(w[1..], rest);
    }
  }

  lemma EncodeName(dump: Dump, size: nat, area: seq<byte>, rest: seq<string>)
    requires HeapBytes(dump, NameOf(area)).Some?
    ensures EncodeKernel(dump, size, [NameLine(area)] + rest)
            == Emitted(NameBytes(NameOf(area), size) + HeapBytes(dump, NameOf(area)).value, rest)
  {
    var lines := [NameLine(area)] + rest;
    assert lines[1..] == rest;
    ContainsPart("\t", KERNEL_NAME_MARK, NameOf(area));
    assert "\t" + KERNEL_NAME_MARK + NameOf(area) == NameLine(area);
    NameLineIs(area);
    AfterFirstSpace("\tKernelName", NameOf(area));
  }

  lemma HeaderTitleWritten(dump: Dump, rest: seq<string>)
    ensures EncodeKernel(dump, 0, ["KernelBinaryHeader:"] + rest) == EncodeKernel(dump, 0, rest)
  {
    var title := "KernelBinaryHeader:";
    assert ([title] + rest)[1..] == rest;
    assert title[18] == ':';
    MissingChar(title, KERNEL_NAME_MARK, ' ');
    MissingChar(title, KERNEL_NAME_SIZE, 'S');
    PrependToNothing(EncodeKernel(dump, 0, rest));
  }

  /** What is written for the lines of a kernel, down to its heaps. */
  lemma EncodeBody(dump: Dump, k: Kernel, rest: seq<string>)
    requires PlainKernelHeader(k.header) && HeapBytes(dump, NameOf(k.nameArea)).Some?
    ensures EncodeKernel(dump, 0, KernelBody(k) + rest)
            == Emitted(ValuesBytes(k.header)
                       + (NameBytes(NameOf(k.nameArea), Lookup(k.header, KERNEL_NAME_SIZE)) + HeapBytes(dump,
                           NameOf(k.nameArea)).value),
                       TokensLines(k.tokens) + rest)
  {
    var a, b, c := ValuesLines(k.header), [NameLine(k.nameArea)], TokensLines(k.tokens);
    BodyParts(k, rest, a, b, c);
    HeaderTitleWritten(dump, a + (b + (c + rest)));
    EncodeHeader(dump, 0, k.header, b + (c + rest));
    NameSizeIsLookup(k.header);
    EncodeName(dump, Lookup(k.header, KERNEL_NAME_SIZE), k.nameArea, c + rest);
  }

  lemma BodyParts(k: Kernel, rest: seq<string>, a: seq<string>, b: seq<string>, c: seq<string>)
    requires a == ValuesLines(k.header) && b == [NameLine(k.nameArea)] && c == TokensLines(k.tokens)
    ensures KernelBody(k) + rest == ["KernelBinaryHeader:"] + (a + (b + (c + rest)))
  {
    var h := ["KernelBinaryHeader:"];
    KernelBodyIs(k, "KernelBinaryHeader:", a, b, c);
    Assoc(h + a + b, c, rest);
    Assoc(h + a, b, c + rest);
    Assoc(h, a, b + (c + rest));
  }
}

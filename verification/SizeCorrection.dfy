/** What the correction of patch list sizes does to a text the disassembler printed. */
module SizeCorrection {
  import opened Arithmetic
  import opened Bytes
  import opened Text
  import opened PatchBinary
  import opened PatchText
  import opened BinaryEncoder
  import opened LineRoundTrip

  // ----- contents the text format can carry ------------------------------------------------

  predicate PlainValues(vs: seq<Value>) {
    forall i :: 0 <= i < |vs| ==> PlainValue(vs[i])
  }

  /** No header field but the size itself can be taken for the size of a patch list. */
  predicate PlainSizeField(field: Field) {
    && !Contains(field.name, PATCH_TOKEN)
    && (Contains(field.name, PATCH_LIST_SIZE) ==> field.name == PATCH_LIST_SIZE && field.size == 4)
  }

  predicate PlainHeader(vs: seq<Value>) {
    PlainValues(vs) && forall i :: 0 <= i < |vs| ==> PlainSizeField(vs[i].field)
  }

  predicate PlainTitle(title: string) {
    '#' !in title && '\n' !in title && Contains(title, PATCH_TOKEN) && !Contains(title, PATCH_LIST_SIZE)
  }

  predicate PlainToken(t: Token) {
    && PlainValues(t.values) && t.token < TWO_32 && t.size < TWO_32
    && (t.title.Some? ==> PlainTitle(t.title.value))
    && (t.title.None? ==> t.values == [])
  }

  predicate PlainTokens(ts: seq<Token>) {
    forall i :: 0 <= i < |ts| ==> PlainToken(ts[i])
  }

  // ----- sizes of lists -------------------------------------------------------------------

  lemma {:induction false} ListSizeAppend(a: seq<string>, b: seq<string>)
    ensures ListSize(a + b) == ListSize(a) + ListSize(b)
  {
    if b == [] {
      assert a + b == a;
    } else {
      assert (a + b)[..|a + b| - 1] == a + b[..|b| - 1];
      ListSizeAppend(a, b[..|b| - 1]);
    }
  }

  lemma ListSizeOne(line: string)
    ensures ListSize([line]) == LineSize(line)
  {
    assert [line][..0] == [];
  }

  lemma {:induction false} ValuesListSize(vs: seq<Value>)
    requires PlainValues(vs)
    ensures ListSize(ValuesLines(vs)) == |ValuesBytes(vs)|
  {
    if vs != [] {
      FieldLineSize(vs[0]);
      ListSizeOne(FieldLine(vs[0]));
      ListSizeAppend([FieldLine(vs[0])], ValuesLines(vs[1..]));
      ValuesListSize(vs[1..]);
    }
  }

  lemma NumberValuesPlain(t: Token)
    requires t.token < TWO_32 && t.size < TWO_32
    ensures PlainValue(NumberValue("Token", t.token)) && PlainValue(NumberValue("Size", t.size))
  {
    Pow256Sizes();
    MissingChar("Token", HEX, 'H');
    MissingChar("Size", HEX, 'H');
  }

  lemma TitleLineSize(title: Option<string>)
    ensures ':' in TitleLine(title) && LineSize(TitleLine(title)) == 0
  {
    var line := TitleLine(title);
    assert line[|line| - 1] == ':';
  }

  lemma FrontListSize(t: Token)
    requires PlainToken(t)
    ensures ListSize(FrontLines(t.title, t.token, t.size, t.values)) == 8 + |ValuesBytes(t.values)|
  {
    var title, token, size := TitleLine(t.title), FieldLine(NumberValue("Token", t.token)),
        FieldLine(NumberValue("Size", t.size));
    NumberValuesPlain(t);
    TitleLineSize(t.title);
    FieldLineSize(NumberValue("Token", t.token));
    FieldLineSize(NumberValue("Size", t.size));
    ListSizeOne(title);
    ListSizeAppend([title], [token]);
    ListSizeOne(token);
    ListSizeAppend([title] + [token], [size]);
    ListSizeOne(size);
    assert [title] + [token] + [size] == [title, token, size];
    ListSizeAppend([title, token, size], ValuesLines(t.values));
    ValuesListSize(t.values);
  }

  lemma RestListSize(hex: seq<byte>)
    ensures ListSize(RestLines(hex)) == |hex|
  {
    if hex != [] {
      ListSizeOne(HexLine(hex));
      HexLineSize(hex);
    }
  }

  /** The lines of a token count for exactly the bytes of the token. */
  lemma TokenListSize(t: Token)
    requires PlainToken(t)
    ensures ListSize(TokenLines(t)) == |TokenBytes(t)|
  {
    FrontListSize(t);
    RestListSize(t.hex);
    ListSizeAppend(FrontLines(t.title, t.token, t.size, t.values), RestLines(t.hex));
  }

  lemma {:induction false} TokensListSize(ts: seq<Token>)
    requires PlainTokens(ts)
    ensures ListSize(TokensLines(ts)) == |TokensBytes(ts)|
  {
    if ts != [] {
      TokenListSize(ts[0]);
      ListSizeAppend(TokenLines(ts[0]), TokensLines(ts[1..]));
      TokensListSize(ts[1..]);
    }
  }

  // ----- lines the correction passes over -------------------------------------------------

  predicate Unmarked(line: string) {
    !Contains(line, PATCH_LIST_SIZE) && !Contains(line, PATCH_TOKEN)
  }

  predicate At(lines: seq<string>, i: nat, part: seq<string>) {
    i + |part| <= |lines| && lines[i..i + |part|] == part
  }

  lemma AtParts(lines: seq<string>, i: nat, a: seq<string>, b: seq<string>)
    requires At(lines, i, a + b)
    ensures At(lines, i, a) && At(lines, i + |a|, b)
  {
    var all := lines[i..i + |a| + |b|];
    assert all == a + b && |a + b| == |a| + |b|;
    assert lines[i..i + |a|] == all[..|a|] && lines[i + |a|..i + |a| + |b|] == all[|a|..];
  }

  lemma AtLine(lines: seq<string>, i: nat, part: seq<string>, k: nat)
    requires At(lines, i, part) && k < |part|
    ensures lines[i + k] == part[k]
  {
    assert lines[i..i + |part|][k] == part[k];
  }

  lemma {:induction false} FixPasses(lines: seq<string>, i: nat, part: seq<string>, pos: nat, j: nat)
    requires At(lines, i, part) && pos <= i && j == i + |part| && forall k :: 0 <= k < |part| ==> Unmarked(part[k])
    ensures Fix(lines, i, pos) == Fix(lines, j, pos)
    decreases |part|
  {
    if part != [] {
      AtLine(lines, i, part, 0);
      assert part == [part[0]] + part[1..];
      AtParts(lines, i, [part[0]], part[1..]);
      assert Unmarked(part[0]);
      FixPasses(lines, i + 1, part[1..], pos, j);
    }
  }

  lemma PlainLineUnmarked(line: string)
    requires '_' !in line && 'P' !in line
    ensures Unmarked(line)
  {
    MissingChar(line, PATCH_LIST_SIZE, 'P');
    MissingChar(line, PATCH_TOKEN, '_');
  }

  lemma NumberLineUnmarked(name: string, n: nat)
    requires '_' !in name && 'P' !in name
    ensures Unmarked(FieldLine(NumberValue(name, n)))
  {
    FieldLineChar(NumberValue(name, n), '_');
    FieldLineChar(NumberValue(name, n), 'P');
    PlainLineUnmarked(FieldLine(NumberValue(name, n)));
  }

  lemma HexLineChar(hex: seq<byte>, c: char)
    requires DigitValue(c) == 16 && c !in "\tHex "
    ensures c !in HexLine(hex)
  {
    HexBytesChars(hex, c);
    assert ' ' in "\tHex ";
    assert forall k :: 0 <= k < 4 ==> "\tHex"[k] == "\tHex "[k] && "\tHex"[k] in "\tHex ";
  }

  lemma UnidentifiedUnmarked(t: Token)
    requires PlainToken(t) && t.title.None?
    ensures forall k :: 0 <= k < |TokenLines(t)| ==> Unmarked(TokenLines(t)[k])
  {
    var lines := TokenLines(t);
    UnidentifiedTitle();
    NumberLineUnmarked("Token", t.token);
    NumberLineUnmarked("Size", t.size);
    if t.hex != [] {
      HexLineChar(t.hex, '_');
      HexLineChar(t.hex, 'P');
      PlainLineUnmarked(HexLine(t.hex));
    }
    assert lines == [TitleLine(None), FieldLine(NumberValue("Token", t.token)), FieldLine(NumberValue("Size",
      t.size))] + RestLines(t.hex);
  }

  lemma UnidentifiedTitle()
    ensures Unmarked("Unidentified PatchToken:") && '#' !in "Unidentified PatchToken:"
  {
    MissingChar("Unidentified PatchToken:", PATCH_LIST_SIZE, 'L');
    MissingChar("Unidentified PatchToken:", PATCH_TOKEN, '_');
  }

  // ----- a header -------------------------------------------------------------------------

  /** The line of the last size field in header lines that start at i; pos if there is none. */
  function SizePos(vs: seq<Value>, i: nat, pos: nat): (p: nat)
    requires pos <= i
    ensures p <= i + |vs|
  {
    if vs == [] then pos
    else if vs[|vs| - 1].field.name == PATCH_LIST_SIZE then i + |vs| - 1
    else SizePos(vs[..|vs| - 1], i, pos)
  }

  lemma {:induction false} ValuesLinesAt(vs: seq<Value>, k: nat)
    requires k < |vs|
    ensures ValuesLines(vs)[k] == FieldLine(vs[k])
  {
    if k > 0 {
      ValuesLinesAt(vs[1..], k - 1);
    }
  }

  lemma HeaderLine(v: Value)
    requires PlainSizeField(v.field)
    ensures !Contains(FieldLine(v), PATCH_TOKEN)
    ensures Contains(FieldLine(v), PATCH_LIST_SIZE) <==> v.field.name == PATCH_LIST_SIZE
  {
    FieldLineContains(v, PATCH_TOKEN, '_');
    FieldLineContains(v, PATCH_LIST_SIZE, 'P');
    if v.field.name == PATCH_LIST_SIZE {
      ContainsPart("\t" + Show(v.field.size, 10) + " ", PATCH_LIST_SIZE, " " + Show(v.value, 10));
      FieldLineMarked(v, PATCH_LIST_SIZE);
    }
  }

  lemma FieldLineMarked(v: Value, m: string)
    requires v.field.name == m
    ensures FieldLine(v) == "\t" + Show(v.field.size, 10) + " " + m + (" " + Show(v.value, 10))
  {
  }

  lemma HeaderStep(lines: seq<string>, k: nat, v: Value, pos: nat)
    requires k < |lines| && lines[k] == FieldLine(v) && PlainSizeField(v.field) && pos <= k
    ensures Fix(lines, k, pos) == Fix(lines, k + 1, if v.field.name == PATCH_LIST_SIZE then k else pos)
  {
    HeaderLine(v);
  }

  lemma HeaderLast(lines: seq<string>, i: nat, vs: seq<Value>, n: nat)
    requires |vs| == n + 1 && At(lines, i, ValuesLines(vs))
    ensures At(lines, i, ValuesLines(vs[..n])) && lines[i + n] == FieldLine(vs[n])
  {
    ValuesLinesAt(vs, n);
    AtLine(lines, i, ValuesLines(vs), n);
    ValuesLinesFront(vs);
    AtParts(lines, i, ValuesLines(vs[..n]), [FieldLine(vs[n])]);
  }

  lemma {:induction false} FixHeader(lines: seq<string>, i: nat, vs: seq<Value>, pos: nat, j: nat)
    requires PlainHeader(vs) && At(lines, i, ValuesLines(vs)) && pos <= i && j == i + |vs|
    ensures Fix(lines, i, pos) == Fix(lines, j, SizePos(vs, i, pos))
    decreases |vs|
  {
    if vs == [] {
      assert SizePos(vs, i, pos) == pos;
    } else {
      var n := |vs| - 1;
      HeaderLast(lines, i, vs, n);
      FixHeader(lines, i, vs[..n], pos, i + n);
      var before := SizePos(vs[..n], i, pos);
      HeaderStep(lines, i + n, vs[n], before);
      assert SizePos(vs, i, pos) == if vs[n].field.name == PATCH_LIST_SIZE then i + n else before;
    }
  }

  lemma {:induction false} ValuesLinesFront(vs: seq<Value>)
    requires vs != []
    ensures ValuesLines(vs) == ValuesLines(vs[..|vs| - 1]) + [FieldLine(vs[|vs| - 1])]
    ensures |ValuesLines(vs)| == |vs|
  {
    forall k | 0 <= k < |vs| ensures ValuesLines(vs)[k] == (ValuesLines(vs[..|vs| - 1]) + [FieldLine(vs[|vs| - 1])])[k] {
      ValuesLinesAt(vs, k);
      if k < |vs| - 1 { ValuesLinesAt(vs[..|vs| - 1], k); }
    }
  }

  // ----- a patch list ---------------------------------------------------------------------

  /** The tokens the size is summed over: those from the first identified one on. */
  function Listed(ts: seq<Token>): (r: seq<Token>) {
    if ts == [] || ts[0].title.Some? then ts else Listed(ts[1..])
  }

  predicate Ended(lines: seq<string>, j: nat) {
    j == |lines| || (j < |lines| && Contains(lines[j], KERNEL_MARK))
  }

  function After(lines: seq<string>, j: nat): (k: nat)
    requires j <= |lines|
    ensures j <= k <= |lines|
  {
    if j < |lines| then j + 1 else j
  }

  lemma {:induction false} ListEndAt(lines: seq<string>, i: nat, j: nat)
    requires i <= j && Ended(lines, j) && forall k :: i <= k < j ==> '#' !in lines[k]
    ensures ListEnd(lines, i) == j
    decreases j - i
  {
    if i < j {
      MissingChar(lines[i], KERNEL_MARK, '#');
      ListEndAt(lines, i + 1, j);
    }
  }

  lemma {:induction false} ValuesNoHash(vs: seq<Value>)
    requires PlainValues(vs)
    ensures forall k :: 0 <= k < |ValuesLines(vs)| ==> '#' !in ValuesLines(vs)[k]
  {
    forall k | 0 <= k < |ValuesLines(vs)| ensures '#' !in ValuesLines(vs)[k] {
      ValuesLinesAt(vs, k);
      FieldLineChar(vs[k], '#');
    }
  }

  lemma TokenNoHash(t: Token)
    requires PlainToken(t)
    ensures forall k :: 0 <= k < |TokenLines(t)| ==> '#' !in TokenLines(t)[k]
  {
    UnidentifiedTitle();
    FieldLineChar(NumberValue("Token", t.token), '#');
    FieldLineChar(NumberValue("Size", t.size), '#');
    HexLineChar(t.hex, '#');
    ValuesNoHash(t.values);
  }

  lemma {:induction false} TokensNoHash(ts: seq<Token>)
    requires PlainTokens(ts)
    ensures forall k :: 0 <= k < |TokensLines(ts)| ==> '#' !in TokensLines(ts)[k]
  {
    if ts != [] {
      TokenNoHash(ts[0]);
      TokensNoHash(ts[1..]);
    }
  }

  lemma IdentifiedTitle(title: string)
    requires PlainTitle(title)
    ensures Contains(TitleLine(Some(title)), PATCH_TOKEN) && !Contains(TitleLine(Some(title)), PATCH_LIST_SIZE)
  {
    var line := title + ":";
    var i :| 0 <= i <= |title| && OccursAt(title, PATCH_TOKEN, i);
    assert line[i..i + |PATCH_TOKEN|] == title[i..i + |PATCH_TOKEN|];
    assert OccursAt(line, PATCH_TOKEN, i);
    forall k | 0 <= k <= |line| ensures !OccursAt(line, PATCH_LIST_SIZE, k) {
      if OccursAt(line, PATCH_LIST_SIZE, k) {
        var m := |PATCH_LIST_SIZE|;
        assert line[k..k + m][m - 1] == 'e';
        assert line[k..k + m] == title[k..k + m];
        assert OccursAt(title, PATCH_LIST_SIZE, k);
      }
    }
  }

  /** The rest of the correction after a list that ends before line j and counts for size bytes. */
  function FixedAfter(lines: seq<string>, pos: nat, size: nat, j: nat): Option<seq<string>>
    requires pos < j <= |lines|
  {
    var line := Corrected(lines[pos], size % TWO_32);
    if line.None? then None else Fix(lines[pos := line.value], After(lines, j), pos)
  }

  lemma FixListStep(lines: seq<string>, i: nat, pos: nat, size: nat, j: nat)
    requires pos <= i < |lines| && Contains(lines[i], PATCH_TOKEN) && !Contains(lines[i], PATCH_LIST_SIZE)
    requires j == ListEnd(lines, i + 1) && size == ListSize(lines[i + 1..j])
    ensures Fix(lines, i, pos) == FixedAfter(lines, pos, size, j)
  {
  }

  /** A list that starts with an identified token: its size is that of all its tokens. */
  lemma FixIdentified(lines: seq<string>, i: nat, ts: seq<Token>, pos: nat, j: nat)
    requires ts != [] && ts[0].title.Some? && PlainTokens(ts) && At(lines, i, TokensLines(ts)) && pos <= i
    requires j == i + |TokensLines(ts)| > i && Ended(lines, j)
    ensures Fix(lines, i, pos) == FixedAfter(lines, pos, |TokensBytes(ts)|, j)
  {
    var size := |TokensBytes(ts)|;
    ListTitle(lines, i, ts);
    ListEndsAt(lines, i, ts, j);
    assert size == ListSize(lines[i + 1..j]) by {
      ListedSize(ts);
      ListTail(lines, i, TokensLines(ts), j);
    }
    FixListStep(lines, i, pos, size, j);
  }

  lemma ListTail(lines: seq<string>, i: nat, text: seq<string>, j: nat)
    requires text != [] && At(lines, i, text) && j == i + |text|
    ensures lines[i + 1..j] == text[1..]
  {
    assert lines[i..i + |text|][1..] == lines[i + 1..i + |text|];
  }

  lemma ListTitle(lines: seq<string>, i: nat, ts: seq<Token>)
    requires ts != [] && ts[0].title.Some? && PlainTokens(ts) && At(lines, i, TokensLines(ts))
    ensures i < |lines| && Contains(lines[i], PATCH_TOKEN) && !Contains(lines[i], PATCH_LIST_SIZE)
  {
    AtLine(lines, i, TokensLines(ts), 0);
    assert TokensLines(ts)[0] == TitleLine(ts[0].title);
    IdentifiedTitle(ts[0].title.value);
  }

  lemma ListEndsAt(lines: seq<string>, i: nat, ts: seq<Token>, j: nat)
    requires PlainTokens(ts) && At(lines, i, TokensLines(ts)) && i < j == i + |TokensLines(ts)| && Ended(lines, j)
    ensures ListEnd(lines, i + 1) == j
  {
    TokensNoHash(ts);
    NoHashAt(lines, i, TokensLines(ts));
    ListEndAt(lines, i + 1, j);
  }

  lemma NoHashAt(lines: seq<string>, i: nat, text: seq<string>)
    requires At(lines, i, text) && forall k :: 0 <= k < |text| ==> '#' !in text[k]
    ensures forall k :: i <= k < i + |text| ==> '#' !in lines[k]
  {
    forall k | i <= k < i + |text| ensures '#' !in lines[k] { AtLine(lines, i, text, k - i); }
  }

  lemma ListedSize(ts: seq<Token>)
    requires ts != [] && PlainTokens(ts)
    ensures ListSize(TokensLines(ts)[1..]) == |TokensBytes(ts)|
  {
    var text := TokensLines(ts);
    TokensListSize(ts);
    TitleLineSize(ts[0].title);
    ListSizeOne(text[0]);
    assert text == [text[0]] + text[1..];
    ListSizeAppend([text[0]], text[1..]);
  }

  /** Unidentified tokens before the first identified one are passed over. */
  lemma {:induction false} FixUnidentified(lines: seq<string>, i: nat, ts: seq<Token>, pos: nat) returns (k: nat)
    requires PlainTokens(ts) && At(lines, i, TokensLines(ts)) && pos <= i
    ensures i <= k && k + |TokensLines(Listed(ts))| == i + |TokensLines(ts)| && At(lines, k, TokensLines(Listed(ts)))
    ensures Fix(lines, i, pos) == Fix(lines, k, pos)
    decreases |ts|
  {
    k := i;
    if ts != [] && ts[0].title.None? {
      var next := i + |TokenLines(ts[0])|;
      AtParts(lines, i, TokenLines(ts[0]), TokensLines(ts[1..]));
      assert Fix(lines, i, pos) == Fix(lines, next, pos) by {
        UnidentifiedUnmarked(ts[0]);
        FixPasses(lines, i, TokenLines(ts[0]), pos, next);
      }
      k := FixUnidentified(lines, next, ts[1..], pos);
    }
  }

  lemma {:induction false} ListedPlain(ts: seq<Token>)
    requires PlainTokens(ts)
    ensures PlainTokens(Listed(ts)) && (Listed(ts) != [] ==> Listed(ts)[0].title.Some?)
  {
    if ts != [] && ts[0].title.None? { ListedPlain(ts[1..]); }
  }

  lemma SomeLines(ts: seq<Token>)
    requires ts != []
    ensures |TokensLines(ts)| > 0
  {
    assert |TokenLines(ts[0])| > 0;
  }

  /** Tokens before the first identified one are not counted. */
  lemma FixCounted(lines: seq<string>, i: nat, ts: seq<Token>, pos: nat, j: nat)
    requires PlainTokens(ts) && At(lines, i, TokensLines(ts)) && pos <= i && j == i + |TokensLines(ts)| && Ended(lines, j)
    requires Listed(ts) != []
    ensures pos < j && Fix(lines, i, pos) == FixedAfter(lines, pos, |TokensBytes(Listed(ts))|, j)
  {
    var k := FixUnidentified(lines, i, ts, pos);
    ListedPlain(ts);
    SomeLines(Listed(ts));
    FixIdentified(lines, k, Listed(ts), pos, j);
  }

  /** A list without identified tokens changes nothing. */
  lemma FixUncounted(lines: seq<string>, i: nat, ts: seq<Token>, pos: nat, j: nat)
    requires PlainTokens(ts) && At(lines, i, TokensLines(ts)) && pos <= i && j == i + |TokensLines(ts)|
    requires Listed(ts) == []
    ensures Fix(lines, i, pos) == Fix(lines, j, pos)
  {
    var k := FixUnidentified(lines, i, ts, pos);
  }
}

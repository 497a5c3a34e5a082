/** Each line the disassembler prints stands, for the assembler, for the bytes it was made of. */
module LineRoundTrip {
  import opened Arithmetic
  import opened Bytes
  import opened Text
  import opened PatchBinary
  import opened PatchText
  import opened BinaryEncoder

  /** A name the text format can carry: one word that holds no text the assembler looks for. */
  predicate PlainName(s: string) {
    s != [] && ':' !in s && '#' !in s && (forall i :: 0 <= i < |s| ==> !IsSpace(s[i])) && !Contains(s, HEX)
  }

  predicate PlainValue(v: Value) {
    PlainName(v.field.name) && ValidSize(v.field.size) && v.value < Pow256(v.field.size)
  }

  lemma ShownChar(n: nat, base: nat, c: char)
    requires ValidBase(base) && DigitValue(c) >= base
    ensures c !in Show(n, base)
  {
    ShowRoundTrip(n, base);
  }

  /** The line of a field, cut at its two spaces. */
  lemma FieldLineParts(v: Value)
    ensures FieldLine(v) == "\t" + Show(v.field.size, 10) + (" " + (v.field.name + " " + Show(v.value, 10)))
    ensures FieldLine(v) == "\t" + Show(v.field.size, 10) + " " + (v.field.name + " " + Show(v.value, 10))
    ensures FieldLine(v) == "\t" + Show(v.field.size, 10) + (" " + v.field.name + (" " + Show(v.value, 10)))
  {
  }

  /** A marker without spaces, digits and tabs can only be found in the name. */
  lemma FieldLineContains(v: Value, m: string, c: char)
    requires ' ' !in m && c in m && c != '\t' && DigitValue(c) >= 10
    ensures Contains(FieldLine(v), m) ==> Contains(v.field.name, m)
  {
    FieldLineParts(v);
    ShownChar(v.field.size, 10, c);
    ShownChar(v.value, 10, c);
    AroundSpace("\t" + Show(v.field.size, 10), v.field.name + " " + Show(v.value, 10), m);
    AroundSpace(v.field.name, Show(v.value, 10), m);
    MissingChar("\t" + Show(v.field.size, 10), m, c);
    MissingChar(Show(v.value, 10), m, c);
  }

  lemma FieldLineChar(v: Value, c: char)
    requires c !in v.field.name && c != '\t' && c != ' ' && DigitValue(c) >= 10
    ensures c !in FieldLine(v)
  {
    ShownChar(v.field.size, 10, c);
    ShownChar(v.value, 10, c);
  }

  lemma FieldBytesOf(line: string, size: nat, named: string, name: string, valued: string, value: nat)
    requires ReadNumber(line, 10, TWO_16) == Got(size, named) && ValidSize(size)
    requires ReadWord(named) == Some(Word(name, valued))
    requires ReadNumber(valued, 10, NumberLimit(size)) == Got(value, "") && value < Pow256(size)
    ensures FieldBytes(line) == Some(LE(value, size))
  {
    SizedBytesOf(size, name, valued, value);
    assert FieldBytes(line) == SizedBytes(size, Some(Word(name, valued)));
  }

  lemma SizedBytesOf(size: nat, name: string, valued: string, value: nat)
    requires ReadNumber(valued, 10, NumberLimit(size)) == Got(value, "") && value < Pow256(size)
    ensures SizedBytes(size, Some(Word(name, valued))) == Some(LE(value, size))
  {
    SmallRemainder(value, Pow256(size));
  }

  lemma SmallRemainder(n: nat, m: nat)
    requires n < m
    ensures n % m == n
  {
  }

  lemma ReadLast(space: string, n: nat, base: nat, limit: nat)
    requires ValidBase(base) && n < limit && (space == "" || space == " ")
    ensures ReadNumber(space + Show(n, base), base, limit) == Got(n, "")
  {
    ReadShown(space, n, "", base, limit);
    assert space + Show(n, base) + "" == space + Show(n, base);
  }

  lemma NumberLimits(size: nat)
    requires ValidSize(size)
    ensures Pow256(size) <= NumberLimit(size)
  {
    Pow256Sizes();
  }

  /** Printing a field and writing its line gives back its bytes. */
  lemma FieldLineBytes(v: Value)
    requires PlainValue(v)
    ensures LineBytes(FieldLine(v)) == Some(LE(v.value, v.field.size))
  {
    FieldLineChar(v, ':');
    FieldLineContains(v, HEX, 'H');
    FieldTextBytes(v);
  }

  lemma FieldTextBytes(v: Value)
    requires PlainValue(v)
    ensures FieldBytes(FieldLine(v)) == Some(LE(v.value, v.field.size))
  {
    var size, value := v.field.size, " " + Show(v.value, 10);
    var named := " " + v.field.name + value;
    FieldLineParts(v);
    ReadShown("\t", size, named, 10, TWO_16);
    ReadPlainWord(v.field.name, value);
    NumberLimits(size);
    ReadLast(" ", v.value, 10, NumberLimit(size));
    FieldBytesOf(FieldLine(v), size, named, v.field.name, value, v.value);
  }

  lemma {:induction false} HexBytesChars(b: seq<byte>, c: char)
    requires DigitValue(c) == 16 && c != ' '
    ensures c !in HexBytes(b)
  {
    if b != [] {
      ShownChar(b[0], 16, c);
      HexBytesChars(b[1..], c);
    }
  }

  lemma HexNumbersOne(s: string, n: byte, rest: string, last: Option<nat>)
    requires ReadNumber(s, 16, TWO_16) == Got(n, rest)
    ensures HexNumbers(s, last) == if rest == "" then Some([n]) else Prepend([n], HexNumbers(rest, Some(n)))
  {
  }

  lemma {:induction false} HexNumbersBytes(space: string, b: seq<byte>, last: Option<nat>)
    requires b != [] && (space == "" || space == " ")
    ensures HexNumbers(space + Show(b[0], 16) + HexBytes(b[1..]), last) == Some(b)
    decreases |b|
  {
    var s, tail, rest := space + Show(b[0], 16) + HexBytes(b[1..]), b[1..], HexBytes(b[1..]);
    ReadShown(space, b[0], rest, 16, TWO_16);
    HexNumbersOne(s, b[0], rest, last);
    if tail == [] {
      assert b == [b[0]] && rest == "";
    } else {
      HexNumbersBytes(" ", tail, Some(b[0]));
      assert rest == " " + Show(tail[0], 16) + HexBytes(tail[1..]) != "";
      assert b == [b[0]] + tail;
    }
  }

  lemma HexLineParts(b: seq<byte>)
    requires b != []
    ensures HexLine(b) == "\tHex" + " " + (Show(b[0], 16) + HexBytes(b[1..]))
    ensures ' ' in HexLine(b) && ':' !in HexLine(b) && Contains(HexLine(b), HEX)
  {
    HexBytesChars(b, ':');
    ContainsPart("\t", HEX, HexBytes(b));
    assert "\t" + HEX == "\tHex";
    assert HexLine(b)[4] == ' ';
  }

  /** Printing bytes in hexadecimal and writing the line gives back the bytes. */
  lemma HexLineBytes(b: seq<byte>)
    requires b != []
    ensures LineBytes(HexLine(b)) == Some(b)
  {
    HexLineParts(b);
    var numbers := Show(b[0], 16) + HexBytes(b[1..]);
    IgnoreWord("\tHex", numbers, 32);
    HexNumbersBytes("", b, None);
    assert "" + Show(b[0], 16) == Show(b[0], 16);
  }

  // ----- sizes ----------------------------------------------------------------------------

  /** A field line counts for the bytes it stands for. */
  lemma FieldLineSize(v: Value)
    requires PlainValue(v)
    ensures LineSize(FieldLine(v)) == v.field.size
  {
    FieldLineChar(v, ':');
    FieldLineContains(v, HEX, 'H');
    FieldLineParts(v);
    var rest := " " + (v.field.name + " " + Show(v.value, 10));
    assert FieldLine(v)[1..] == Show(v.field.size, 10) + rest;
    assert v.field.size < TWO_16;
    AtoiShown(v.field.size, rest);
  }

  lemma AtoiShown(n: nat, rest: string)
    requires rest == [] || DigitValue(rest[0]) >= 10
    ensures Atoi(Show(n, 10) + rest) == n
  {
    assert "" + Show(n, 10) == Show(n, 10);
    ReadShown("", n, rest, 10, n + 1);
  }

  lemma {:induction false} CountSpacesAppend(a: string, b: string)
    ensures CountSpaces(a + b) == CountSpaces(a) + CountSpaces(b)
  {
    if b == [] {
      assert a + b == a;
    } else {
      assert (a + b)[..|a + b| - 1] == a + b[..|b| - 1];
      CountSpacesAppend(a, b[..|b| - 1]);
    }
  }

  lemma {:induction false} NoSpaces(s: string)
    requires ' ' !in s
    ensures CountSpaces(s) == 0
  {
    if s != [] {
      NoSpaces(s[..|s| - 1]);
    }
  }

  lemma {:induction false} HexBytesSpaces(b: seq<byte>)
    ensures CountSpaces(HexBytes(b)) == |b|
  {
    if b != [] {
      var shown := Show(b[0], 16);
      ShownChar(b[0], 16, ' ');
      NoSpaces(shown);
      HexBytesSpaces(b[1..]);
      CountSpacesAppend(" " + shown, HexBytes(b[1..]));
      CountSpacesAppend(" ", shown);
      assert " "[..0] == [];
    }
  }

  /** A line of hexadecimals counts for as many bytes as it has. */
  lemma HexLineSize(b: seq<byte>)
    requires b != []
    ensures LineSize(HexLine(b)) == |b|
  {
    HexBytesChars(b, ':');
    ContainsPart("\t", HEX, HexBytes(b));
    assert "\t" + HEX == "\tHex";
    CountSpacesAppend("\tHex", HexBytes(b));
    NoSpaces("\tHex");
    HexBytesSpaces(b);
  }

  // ----- the correction of a size ---------------------------------------------------------

  lemma {:induction false} LastSpaceAt(front: string, word: string)
    requires ' ' !in word
    ensures AfterLastSpace(front + " " + word) == |front| + 1
  {
    var s := front + " " + word;
    if word != [] {
      assert s[|s| - 1] == word[|word| - 1] && word[|word| - 1] in word;
      assert s[..|s| - 1] == front + " " + word[..|word| - 1];
      LastSpaceAt(front, word[..|word| - 1]);
    }
  }

  lemma CorrectedOf(line: string, front: string, word: string, n: nat, size: nat)
    requires line == front + " " + word && ' ' !in word
    requires ReadNumber(word, 10, TWO_64) == Got(n, "") && n < TWO_32
    ensures Corrected(line, size) == Some(if n == size then line else front + " " + Show(size, 10))
  {
    LastSpaceAt(front, word);
    assert line[|front| + 1..] == word && line[..|front| + 1] == front + " ";
    CorrectedAt(line, |front| + 1, n, size);
  }

  lemma CorrectedAt(line: string, p: nat, n: nat, size: nat)
    requires p == AfterLastSpace(line) && ReadNumber(line[p..], 10, TWO_64) == Got(n, "") && n < TWO_32
    ensures Corrected(line, size) == Some(if n == size then line else line[..p] + Show(size, 10))
  {
    SmallRemainder(n, TWO_32);
  }

  /** Correcting the line of a 4-byte field gives the line of that field with the new value. */
  lemma CorrectedField(v: Value, size: nat)
    requires PlainValue(v) && v.field.size == 4
    ensures Corrected(FieldLine(v), size) == Some(FieldLine(Value(v.field, size)))
  {
    var front, word := "\t" + Show(v.field.size, 10) + " " + v.field.name, Show(v.value, 10);
    ShownChar(v.value, 10, ' ');
    Pow256Sizes();
    ReadLast("", v.value, 10, TWO_64);
    assert "" + word == word;
    CorrectedOf(FieldLine(v), front, word, v.value, size);
  }
}

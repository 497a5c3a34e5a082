/** The text layer of the disassembler and assembler: numbers, words, substrings and lines. */
module Text {

  datatype Option<+T> = None | Some(value: T)

  // ----- digits ---------------------------------------------------------------------------

  predicate ValidBase(base: nat) { base == 10 || base == 16 }

  function Digit(d: nat): char
    requires d < 16
  {
    "0123456789abcdef"[d]
  }

  /** The value of a digit character, or 16 if it is none. */
  function DigitValue(c: char): (v: nat)
    ensures v <= 16
  {
    if '0' <= c <= '9' then c as nat - '0' as nat
    else if 'a' <= c <= 'f' then c as nat - 'a' as nat + 10
    else if 'A' <= c <= 'F' then c as nat - 'A' as nat + 10
    else 16
  }

  lemma DigitRoundTrip(d: nat)
    requires d < 16
    ensures DigitValue(Digit(d)) == d
  {
  }

  /** A number as an output stream prints it: no sign, no prefix, no leading zeros. */
  function Show(n: nat, base: nat): (s: string)
    requires ValidBase(base)
  {
    if n < base then [Digit(n)] else Show(n / base, base) + [Digit(n % base)]
  }

  function ValueOf(s: string, base: nat): nat {
    if s == [] then 0 else ValueOf(s[..|s| - 1], base) * base + DigitValue(s[|s| - 1])
  }

  predicate AllDigits(s: string, base: nat) {
    forall i :: 0 <= i < |s| ==> DigitValue(s[i]) < base
  }

  lemma {:induction false} ShowRoundTrip(n: nat, base: nat)
    requires ValidBase(base)
    ensures AllDigits(Show(n, base), base) && |Show(n, base)| > 0 && ValueOf(Show(n, base), base) == n
  {
    DigitRoundTrip(n % base);
    if n < base {
      DigitRoundTrip(n);
      assert [Digit(n)][..0] == [];
    } else {
      ShowRoundTrip(n / base, base);
      var s := Show(n, base);
      assert s[..|s| - 1] == Show(n / base, base);
    }
  }

  // ----- reading from a stream ------------------------------------------------------------

  predicate IsSpace(c: char) { c == ' ' || c == '\t' || c == '\n' || c == '\r' || c as nat == 11 || c as nat == 12 }

  function SkipSpaces(s: string): (t: string)
    ensures |t| <= |s|
  {
    if s != [] && IsSpace(s[0]) then SkipSpaces(s[1..]) else s
  }

  /** The length of the longest prefix of digits. */
  function DigitRun(s: string, base: nat): (k: nat)
    ensures k <= |s|
  {
    if s != [] && DigitValue(s[0]) < base then 1 + DigitRun(s[1..], base) else 0
  }

  /** What extracting a number does: nothing at the end of the stream; otherwise it sets the variable. */
  datatype Extraction = Nothing | Failed(value: nat, rest: string) | Got(value: nat, rest: string)

  /** in >> number: skip spaces, take all digits; without one 0 is set, on overflow the largest value. */
  function ReadNumber(s: string, base: nat, limit: nat): (r: Extraction)
    requires limit > 0
    ensures r.Got? ==> |r.rest| < |s|
  {
    var t := SkipSpaces(s);
    var k := DigitRun(t, base);
    var v := ValueOf(t[..k], base);
    if t == [] then Nothing
    else if k == 0 then Failed(0, t)
    else if v >= limit then Failed(limit - 1, t[k..])
    else Got(v, t[k..])
  }

  function WordRun(s: string): (k: nat)
    ensures k <= |s|
  {
    if s != [] && !IsSpace(s[0]) then 1 + WordRun(s[1..]) else 0
  }

  datatype Word = Word(text: string, rest: string)

  /** in >> word: skip spaces, take everything up to the next space. */
  function ReadWord(s: string): Option<Word> {
    var t := SkipSpaces(s);
    var k := WordRun(t);
    if k == 0 then None else Some(Word(t[..k], t[k..]))
  }

  /** in.ignore(n, ' '): drop up to n characters, stopping after the first space. */
  function Ignore(s: string, n: nat): string {
    if n == 0 || s == [] then s else if s[0] == ' ' then s[1..] else Ignore(s[1..], n - 1)
  }

  lemma {:induction false} DigitRunStops(d: string, rest: string, base: nat)
    requires AllDigits(d, base) && (rest == [] || DigitValue(rest[0]) >= base)
    ensures DigitRun(d + rest, base) == |d|
  {
    if d == [] {
      assert d + rest == rest;
    } else {
      assert (d + rest)[1..] == d[1..] + rest;
      DigitRunStops(d[1..], rest, base);
    }
  }

  lemma {:induction false} WordRunStops(w: string, rest: string)
    requires (forall i :: 0 <= i < |w| ==> !IsSpace(w[i])) && (rest == [] || IsSpace(rest[0]))
    ensures WordRun(w + rest) == |w|
  {
    if w == [] {
      assert w + rest == rest;
    } else {
      assert (w + rest)[1..] == w[1..] + rest;
      WordRunStops(w[1..], rest);
    }
  }

  lemma SkipToDigit(space: string, d: string, rest: string, base: nat)
    requires ValidBase(base) && AllDigits(d, base) && d != []
    requires space == [] || (|space| == 1 && IsSpace(space[0]))
    ensures SkipSpaces(space + d + rest) == d + rest
  {
    var t := d + rest;
    assert DigitValue(t[0]) < base;
    if space != [] {
      assert (space + d + rest)[1..] == t;
    } else {
      assert space + d + rest == t;
    }
  }

  /** A shown number is read back, whatever follows it, as long as that is not a digit. */
  lemma ReadShown(space: string, n: nat, rest: string, base: nat, limit: nat)
    requires ValidBase(base) && n < limit && (rest == [] || DigitValue(rest[0]) >= base)
    requires space == [] || (|space| == 1 && IsSpace(space[0]))
    ensures ReadNumber(space + Show(n, base) + rest, base, limit) == Got(n, rest)
  {
    var d := Show(n, base);
    ShowRoundTrip(n, base);
    var t := d + rest;
    SkipToDigit(space, d, rest, base);
    DigitRunStops(d, rest, base);
    assert t[..|d|] == d && t[|d|..] == rest;
  }

  lemma ReadPlainWord(w: string, rest: string)
    requires w != [] && (forall i :: 0 <= i < |w| ==> !IsSpace(w[i])) && (rest == [] || IsSpace(rest[0]))
    ensures ReadWord(" " + w + rest) == Some(Word(w, rest))
  {
    var t := w + rest;
    assert (" " + w + rest)[1..] == t;
    assert SkipSpaces(t) == t;
    WordRunStops(w, rest);
    assert t[..|w|] == w && t[|w|..] == rest;
  }

  lemma {:induction false} IgnoreWord(w: string, rest: string, n: nat)
    requires ' ' !in w && |w| < n
    ensures Ignore(w + " " + rest, n) == rest
  {
    var s := w + " " + rest;
    if w == [] {
      assert s[1..] == rest;
    } else {
      assert s[0] == w[0] && w[0] in w;
      assert s[1..] == w[1..] + " " + rest;
      IgnoreWord(w[1..], rest, n - 1);
    }
  }

  // ----- substrings -----------------------------------------------------------------------

  predicate OccursAt(s: string, m: string, i: nat) {
    i + |m| <= |s| && s[i..i + |m|] == m
  }

  /** s.find(m) succeeds. */
  predicate Contains(s: string, m: string) {
    exists i :: 0 <= i <= |s| && OccursAt(s, m, i)
  }

  lemma MissingChar(s: string, m: string, c: char)
    requires c in m && c !in s
    ensures !Contains(s, m)
  {
  }

  lemma ContainsPart(a: string, m: string, b: string)
    ensures Contains(a + m + b, m)
  {
    assert OccursAt(a + m + b, m, |a|);
  }

  /** A marker without spaces cannot straddle a space. */
  lemma AroundSpace(a: string, b: string, m: string)
    requires ' ' !in m
    ensures Contains(a + " " + b, m) ==> Contains(a, m) || Contains(b, m)
  {
    var s := a + " " + b;
    if Contains(s, m) {
      var i :| 0 <= i <= |s| && OccursAt(s, m, i);
      assert forall j :: 0 <= j < |m| ==> s[i + j] == m[j];
      assert s[|a|] == ' ' && forall k :: i <= k < i + |m| ==> s[k] == m[k - i];
      if i + |m| <= |a| {
        assert a[i..i + |m|] == s[i..i + |m|];
        assert OccursAt(a, m, i);
      } else if i > |a| {
        var k := i - |a| - 1;
        assert b[k..k + |m|] == s[i..i + |m|];
        assert OccursAt(b, m, k);
      }
    }
  }

  // ----- lines ----------------------------------------------------------------------------

  /** A file: every line ended by a newline. */
  function Join(lines: seq<string>): string {
    if lines == [] then [] else lines[0] + "\n" + Join(lines[1..])
  }

  function LineEnd(s: string): (k: nat)
    ensures k <= |s| && (k < |s| ==> s[k] == '\n')
  {
    if s == [] || s[0] == '\n' then 0 else 1 + LineEnd(s[1..])
  }

  /** getline until the end of the file; a final newline opens no further line. */
  function Split(s: string): seq<string>
    decreases |s|
  {
    if s == [] then []
    else
      var k := LineEnd(s);
      [s[..k]] + (if k == |s| then [] else Split(s[k + 1..]))
  }

  lemma {:induction false} LineEndAt(line: string, rest: string)
    requires '\n' !in line
    ensures LineEnd(line + "\n" + rest) == |line|
  {
    var s := line + "\n" + rest;
    if line != [] {
      assert s[0] == line[0] && line[0] in line;
      assert s[1..] == line[1..] + "\n" + rest;
      LineEndAt(line[1..], rest);
    }
  }

  lemma {:induction false} SplitJoin(lines: seq<string>)
    requires forall i :: 0 <= i < |lines| ==> '\n' !in lines[i]
    ensures Split(Join(lines)) == lines
  {
    if lines != [] {
      var s, rest := Join(lines), Join(lines[1..]);
      LineEndAt(lines[0], rest);
      assert s[..|lines[0]|] == lines[0] && s[|lines[0]| + 1..] == rest;
      SplitJoin(lines[1..]);
      assert |s| > |lines[0]|;
      if rest == [] { assert lines[1..] == []; }
    }
  }
}

/** The text and heap files the disassembler makes of a program. */
module PatchText {
  import opened Bytes
  import opened Text
  import opened PatchBinary

  // ----- lines ----------------------------------------------------------------------------

  function FieldLine(v: Value): string {
    "\t" + Show(v.field.size, 10) + " " + v.field.name + " " + Show(v.value, 10)
  }

  function HexBytes(b: seq<byte>): string {
    if b == [] then [] else " " + Show(b[0], 16) + HexBytes(b[1..])
  }

  function HexLine(b: seq<byte>): string { "\tHex" + HexBytes(b) }

  function ValuesLines(vs: seq<Value>): (r: seq<string>)
    ensures |r| == |vs|
  {
    if vs == [] then [] else [FieldLine(vs[0])] + ValuesLines(vs[1..])
  }

  function TitleLine(title: Option<string>): string {
    if title.Some? then title.value + ":" else "Unidentified PatchToken:"
  }

  function NumberValue(name: string, n: nat): Value { Value(Field(4, name), n) }

  /** The title of a token, its two numbers and its fields. */
  function FrontLines(title: Option<string>, token: nat, size: nat, vs: seq<Value>): seq<string> {
    [TitleLine(title), FieldLine(NumberValue("Token", token)), FieldLine(NumberValue("Size", size))] + ValuesLines(vs)
  }

  function RestLines(hex: seq<byte>): seq<string> {
    if hex == [] then [] else [HexLine(hex)]
  }

  function TokenLines(t: Token): seq<string> {
    FrontLines(t.title, t.token, t.size, t.values) + RestLines(t.hex)
  }

  function TokensLines(ts: seq<Token>): seq<string> {
    if ts == [] then [] else TokenLines(ts[0]) + TokensLines(ts[1..])
  }

  /** The name area up to its first NUL. */
  function NameOf(area: seq<byte>): string {
    if area == [] || area[0] == 0 then [] else [area[0] as char] + NameOf(area[1..])
  }

  function NameLine(area: seq<byte>): string { "\tKernelName " + NameOf(area) }

  /** The lines of a kernel after the one that opens it. */
  function KernelBody(k: Kernel): seq<string> {
    ["KernelBinaryHeader:"] + ValuesLines(k.header) + [NameLine(k.nameArea)] + TokensLines(k.tokens)
  }

  function KernelTitle(i: nat): string { "Kernel #" + Show(i, 10) }

  function KernelLines(i: nat, k: Kernel): seq<string> { [KernelTitle(i)] + KernelBody(k) }

  /** The lines of numbered items, one item after the other. */
  function Numbered<T>(lines: (nat, T) -> seq<string>, i: nat, items: seq<T>): seq<string>
    decreases |items|
  {
    if items == [] then [] else lines(i, items[0]) + Numbered(lines, i + 1, items[1..])
  }

  function KernelsLines(i: nat, ks: seq<Kernel>): seq<string> { Numbered(KernelLines, i, ks) }

  function ProgramLines(p: Program): seq<string> {
    ["ProgramBinaryHeader:"] + ValuesLines(p.header) + TokensLines(p.tokens) + KernelsLines(0, p.kernels)
  }

  // ----- files ----------------------------------------------------------------------------

  type Dump = map<string, seq<byte>>

  function KernelHeapFile(name: string): string { name + "_KernelHeap.bin" }
  function GeneralHeapFile(name: string): string { name + "_GeneralStateHeap.bin" }
  function DynamicHeapFile(name: string): string { name + "_DynamicStateHeap.bin" }
  function SurfaceHeapFile(name: string): string { name + "_SurfaceStateHeap.bin" }

  /**
   * The files of a kernel. A general state heap is dumped with the size of the dynamic one, so it
   * is cut short or runs on into that.
   */
  function HeapFiles(dump: Dump, name: string, kernelHeap: seq<byte>, generalHeap: seq<byte>,
                     dynamicHeap: seq<byte>, surfaceHeap: seq<byte>): Dump
  {
    var d := dump[KernelHeapFile(name) := kernelHeap];
    var e := if generalHeap == [] then d
             else d[GeneralHeapFile(name) := (generalHeap + dynamicHeap)[..|dynamicHeap|]];
    e[DynamicHeapFile(name) := dynamicHeap][SurfaceHeapFile(name) := surfaceHeap]
  }

  function KernelFiles(dump: Dump, k: Kernel): Dump {
    HeapFiles(dump, NameOf(k.nameArea), k.kernelHeap, k.generalHeap, k.dynamicHeap, k.surfaceHeap)
  }

  function ProgramFiles(dump: Dump, ks: seq<Kernel>): Dump
    decreases |ks|
  {
    if ks == [] then dump else ProgramFiles(KernelFiles(dump, ks[0]), ks[1..])
  }

  /** A name ends at the first NUL of its area. */
  lemma {:induction false} NameOfIs(area: seq<byte>)
    ensures |NameOf(area)| <= |area| && (|NameOf(area)| < |area| ==> area[|NameOf(area)|] == 0)
    ensures forall i :: 0 <= i < |NameOf(area)| ==> area[i] != 0 && NameOf(area)[i] == area[i] as char
  {
    if area != [] && area[0] != 0 {
      NameOfIs(area[1..]);
      assert NameOf(area)[1..] == NameOf(area[1..]);
    }
  }

  // ----- an example of the text -----------------------------------------------------------

  lemma SmallShown()
    ensures Show(0, 10) == "0" && Show(4, 10) == "4" && Show(5, 10) == "5" && Show(12, 10) == "12"
    ensures Show(255, 16) == "ff" && Show(10, 16) == "a" && Show(3, 16) == "3"
  {
  }

  const SHOWN_TOKEN: Token :=
    Token(Some("PATCH_TOKEN_X"), 5, 12, [Value(Field(4, "InlineDataSize"), 4)], [255, 10, 3, 0])

  lemma HexShown()
    ensures HexLine([255, 10, 3, 0]) == "\tHex ff a 3 0"
  {
    SmallShown();
    assert Show(0, 16) == "0";
    assert [255, 10, 3, 0][1..] == [10, 3, 0] && [10, 3, 0][1..] == [3, 0] && [3, 0][1..] == [0] && [0][1..] == [];
    assert HexBytes([]) == "" && HexBytes([0]) == " 0" && HexBytes([3, 0]) == " 3 0" && HexBytes([10, 3, 0]) == " a 3 0";
  }

  /** A token is printed as its name, its number and size, its fields, and its other bytes in hexadecimal. */
  lemma TokenShown()
    ensures TokenLines(SHOWN_TOKEN)
      == ["PATCH_TOKEN_X:", "\t4 Token 5", "\t4 Size 12", "\t4 InlineDataSize 4", "\tHex ff a 3 0"]
    ensures TokenLines(Token(None, 5, 8, [], [])) [0] == "Unidentified PatchToken:"
  {
    FieldsShown();
    HexShown();
    var title := "PATCH_TOKEN_X";
    assert title + ":" == "PATCH_TOKEN_X:";
    var none: seq<string> := [];
    assert SHOWN_TOKEN.values[1..] == [] && ValuesLines([]) == none;
    assert ValuesLines(SHOWN_TOKEN.values) == [FieldLine(SHOWN_TOKEN.values[0])] + none;
  }

  lemma FieldsShown()
    ensures FieldLine(NumberValue("Token", 5)) == "\t4 Token 5" && FieldLine(NumberValue("Size", 12)) == "\t4 Size 12"
    ensures FieldLine(NumberValue("InlineDataSize", 4)) == "\t4 InlineDataSize 4"
  {
    SmallShown();
    assert "\t" + "4" + " " + "Token" + " " + "5" == "\t4 Token 5";
    assert "\t" + "4" + " " + "Size" + " " + "12" == "\t4 Size 12";
    assert "\t" + "4" + " " + "InlineDataSize" + " " + "4" == "\t4 InlineDataSize 4";
  }

  /** A kernel is printed under its number, with its name in front of its patch list. */
  lemma KernelShown()
    ensures KernelLines(12, Kernel([NumberValue("KernelNameSize", 4)], [65, 66, 0, 0], [1], [], [2], [3], []))
      == ["Kernel #12", "KernelBinaryHeader:", "\t4 KernelNameSize 4", "\tKernelName AB"]
  {
    NameShown();
    SmallShown();
    assert "Kernel #" + "12" == "Kernel #12";
    var vs, none: seq<string> := [NumberValue("KernelNameSize", 4)], [];
    assert "\t" + "4" + " " + "KernelNameSize" + " " + "4" == "\t4 KernelNameSize 4";
    assert vs[1..] == [] && ValuesLines([]) == none;
    assert ValuesLines(vs) == [FieldLine(vs[0])] + none;
    assert TokensLines([]) == none;
  }

  lemma NameShown()
    ensures NameLine([65, 66, 0, 0]) == "\tKernelName AB"
  {
    assert [65, 66, 0, 0][1..] == [66, 0, 0] && [66, 0, 0][1..] == [0, 0];
    assert NameOf([0, 0]) == "" && NameOf([66, 0, 0]) == "B" && NameOf([65, 66, 0, 0]) == "AB";
    assert "\tKernelName " + "AB" == "\tKernelName AB";
  }
}

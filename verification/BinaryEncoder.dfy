/** The assembler: turns the text and heap files of a dump back into a device binary. */
module BinaryEncoder {
  import opened Arithmetic
  import opened Bytes
  import opened Text
  import opened PatchBinary
  import opened PatchText

  const HEX := "Hex"
  const KERNEL_MARK := "Kernel #"
  const KERNEL_NAME_MARK := "KernelName "
  const KERNEL_NAME_SIZE := "KernelNameSize"
  const PATCH_LIST_SIZE := "PatchListSize"
  const PATCH_TOKEN := "PATCH_TOKEN"

  // ----- the bytes of one line ------------------------------------------------------------

  function Prepend(b: seq<byte>, tail: Option<seq<byte>>): Option<seq<byte>> {
    if tail.None? then None else Some(b + tail.value)
  }

  /**
   * The loop over the hexadecimals of a line, which runs until it meets the end of the stream. A
   * trailing space repeats the last byte; a character that is no digit makes the loop endless.
   */
  function HexNumbers(s: string, last: Option<nat>): Option<seq<byte>>
    decreases |s|
  {
    var n := ReadNumber(s, 16, TWO_16);
    if n.Nothing? then (if last.Some? then Some([last.value % 256]) else None)
    else if n.rest == [] then Some([n.value % 256])
    else if n.Failed? then None
    else Prepend([n.value % 256], HexNumbers(n.rest, Some(n.value)))
  }

  /** Single bytes are read through a 16-bit variable. */
  function NumberLimit(size: nat): nat { if size == 1 then TWO_16 else Pow256(size) }

  /** A line of a size, a name and a value. */
  function FieldBytes(line: string): Option<seq<byte>> {
    var size := ReadNumber(line, 10, TWO_16);
    if size.Got? && ValidSize(size.value) then SizedBytes(size.value, ReadWord(size.rest)) else None
  }

  /** The value that follows the name, in size bytes. */
  function SizedBytes(size: nat, name: Option<Word>): Option<seq<byte>> {
    if name.None? then None
    else
      var v := ReadNumber(name.value.rest, 10, NumberLimit(size));
      if v.Nothing? then None else Some(LE(v.value % Pow256(size), size))
  }

  /** What a line adds to the binary; None for an error or a run with no defined outcome. */
  function LineBytes(line: string): Option<seq<byte>> {
    if ':' in line then Some([])
    else if Contains(line, HEX) then
      if ' ' !in line && |line| < 32 then Some([]) else HexNumbers(Ignore(line, 32), None)
    else FieldBytes(line)
  }

  // ----- the bytes of a kernel ------------------------------------------------------------

  /** The bytes written and the lines after those used up. */
  datatype Emitted = Failure | Emitted(bytes: seq<byte>, rest: seq<string>)

  function PrependTo(b: seq<byte>, tail: Emitted): Emitted {
    if tail.Failure? then Failure else Emitted(b + tail.bytes, tail.rest)
  }

  function AfterSpace(s: string): string {
    if s == [] then [] else if s[0] == ' ' then s[1..] else AfterSpace(s[1..])
  }

  function NameSizeOf(line: string, before: nat): nat {
    var n := ReadNumber(Ignore(Ignore(line, 32), 32), 10, TWO_32);
    if n.Nothing? then before else n.value
  }

  function Chars(s: string): seq<byte> {
    if s == [] then [] else [s[0] as nat % 256] + Chars(s[1..])
  }

  function NameBytes(name: string, size: nat): seq<byte> {
    Chars(name) + Zeros(if |name| < size then size - |name| else 0)
  }

  /** The heap files of a kernel; the general state heap comes first here, if there is a file for it. */
  function HeapBytes(dump: Dump, name: string): Option<seq<byte>> {
    if KernelHeapFile(name) in dump && DynamicHeapFile(name) in dump && SurfaceHeapFile(name) in dump then
      Some((if GeneralHeapFile(name) in dump then dump[GeneralHeapFile(name)] else [])
           + dump[KernelHeapFile(name)] + dump[DynamicHeapFile(name)] + dump[SurfaceHeapFile(name)])
    else None
  }

  /** A kernel up to its heaps: lines to write until one gives its name. */
  function EncodeKernel(dump: Dump, nameSize: nat, lines: seq<string>): (r: Emitted)
    ensures r.Emitted? ==> |r.rest| < |lines|
    decreases |lines|
  {
    if lines == [] then Failure
    else if Contains(lines[0], KERNEL_NAME_MARK) then
      var name := AfterSpace(lines[0]);
      var heaps := HeapBytes(dump, name);
      if heaps.None? then Failure else Emitted(NameBytes(name, nameSize) + heaps.value, lines[1..])
    else
      var out := LineBytes(lines[0]);
      var size := if Contains(lines[0], KERNEL_NAME_SIZE) then NameSizeOf(lines[0], nameSize) else nameSize;
      if out.None? then Failure else PrependTo(out.value, EncodeKernel(dump, size, lines[1..]))
  }

  function EncodeLines(dump: Dump, lines: seq<string>): Option<seq<byte>>
    decreases |lines|
  {
    if lines == [] then Some([])
    else if Contains(lines[0], KERNEL_MARK) then
      var k := EncodeKernel(dump, 0, lines[1..]);
      if k.Failure? then None else Prepend(k.bytes, EncodeLines(dump, k.rest))
    else
      var out := LineBytes(lines[0]);
      if out.None? then None else Prepend(out.value, EncodeLines(dump, lines[1..]))
  }

  // ----- patch list sizes -----------------------------------------------------------------

  function CountSpaces(s: string): nat {
    if s == [] then 0 else CountSpaces(s[..|s| - 1]) + if s[|s| - 1] == ' ' then 1 else 0
  }

  /** atoi, for texts without a sign. */
  function Atoi(s: string): nat {
    var t := SkipSpaces(s);
    ValueOf(t[..DigitRun(t, 10)], 10)
  }

  /** How many bytes a line of a patch list is taken to stand for. */
  function LineSize(line: string): nat {
    if ':' in line then 0
    else if Contains(line, HEX) then CountSpaces(line)
    else if line == "" then 0
    else Atoi(line[1..])
  }

  function ListSize(lines: seq<string>): nat {
    if lines == [] then 0 else ListSize(lines[..|lines| - 1]) + LineSize(lines[|lines| - 1])
  }

  /** Where the list that goes on at line i ends: at the next kernel, or with the file. */
  function ListEnd(lines: seq<string>, i: nat): (j: nat)
    requires i <= |lines|
    ensures i <= j <= |lines|
    decreases |lines| - i
  {
    if i == |lines| || Contains(lines[i], KERNEL_MARK) then i else ListEnd(lines, i + 1)
  }

  /** The position after the last space. */
  function AfterLastSpace(s: string): (p: nat)
    ensures p <= |s|
  {
    if s == [] then 0 else if s[|s| - 1] == ' ' then |s| else AfterLastSpace(s[..|s| - 1])
  }

  /** The line with its last word, a number, set to size; None if that word is no 64-bit number. */
  function Corrected(line: string, size: nat): Option<string> {
    var p := AfterLastSpace(line);
    var n := ReadNumber(line[p..], 10, TWO_64);
    if !n.Got? then None
    else if n.value % TWO_32 == size then Some(line)
    else Some(line[..p] + Show(size, 10))
  }

  /**
   * Correct the sizes in the lines from i on. The size line to correct is the last one seen, at
   * pos, before the first identified token of a list; the rest of that list is skipped.
   */
  function Fix(lines: seq<string>, i: nat, pos: nat): Option<seq<string>>
    requires pos <= i <= |lines|
    decreases |lines| - i
  {
    if i == |lines| then Some(lines)
    else if Contains(lines[i], PATCH_LIST_SIZE) then Fix(lines, i + 1, i)
    else if !Contains(lines[i], PATCH_TOKEN) then Fix(lines, i + 1, pos)
    else
      var j := ListEnd(lines, i + 1);
      var line := Corrected(lines[pos], ListSize(lines[i + 1..j]) % TWO_32);
      if line.None? then None
      else Fix(lines[pos := line.value], if j < |lines| then j + 1 else j, pos)
  }

  /** The whole assembler, from the text of the dump. */
  function Encode(dump: Dump, ptm: string): Option<seq<byte>> {
    var lines := Fix(Split(ptm), 0, 0);
    if lines.None? then None else EncodeLines(dump, lines.value)
  }

  // ----- one step of each loop ------------------------------------------------------------

  lemma ListSizeNext(lines: seq<string>, i: nat, j: nat, sum: nat)
    requires i <= j < |lines| && sum == ListSize(lines[i..j]) % TWO_32
    ensures ListSize(lines[i..j + 1]) % TWO_32 == Wrap32(sum + LineSize(lines[j]))
  {
    assert lines[i..j + 1][..j - i] == lines[i..j];
    Wrap32Sum(ListSize(lines[i..j]), LineSize(lines[j]));
  }

  lemma HexStep(s: string, last: Option<nat>, written: seq<byte>)
    ensures var whole, n := Prepend(written, HexNumbers(s, last)), ReadNumber(s, 16, TWO_16);
      if n.Nothing? then whole == (if last.Some? then Some(written + [last.value % 256]) else None)
      else if n.rest == [] then whole == Some(written + [n.value % 256])
      else if n.Failed? then whole == None
      else whole == Prepend(written + [n.value % 256], HexNumbers(n.rest, Some(n.value)))
  {
    var n := ReadNumber(s, 16, TWO_16);
    if n.Got? {
      var tail := HexNumbers(n.rest, Some(n.value));
      if tail.Some? { Assoc(written, [n.value % 256], tail.value); }
    }
  }

  /** What the first line, or the first kernel, contributes. */
  function NextBytes(dump: Dump, lines: seq<string>): Emitted
    requires lines != []
  {
    if Contains(lines[0], KERNEL_MARK) then EncodeKernel(dump, 0, lines[1..])
    else
      var out := LineBytes(lines[0]);
      if out.None? then Failure else Emitted(out.value, lines[1..])
  }

  lemma LinesStep(dump: Dump, lines: seq<string>, written: seq<byte>)
    requires lines != []
    ensures var whole, next := Prepend(written, EncodeLines(dump, lines)), NextBytes(dump, lines);
      whole == if next.Failure? then None else Prepend(written + next.bytes, EncodeLines(dump, next.rest))
  {
    var next := NextBytes(dump, lines);
    if next.Emitted? {
      var tail := EncodeLines(dump, next.rest);
      if tail.Some? { Assoc(written, next.bytes, tail.value); }
    }
  }

  lemma KernelStep(dump: Dump, size: nat, lines: seq<string>, written: seq<byte>, nextSize: nat, rest: seq<string>)
    requires lines != [] && !Contains(lines[0], KERNEL_NAME_MARK) && rest == lines[1..]
    requires nextSize == if Contains(lines[0], KERNEL_NAME_SIZE) then NameSizeOf(lines[0], size) else size
    ensures PrependTo(written, EncodeKernel(dump, size, lines)) ==
      if LineBytes(lines[0]).None? then Failure
      else PrependTo(written + LineBytes(lines[0]).value, EncodeKernel(dump, nextSize, rest))
  {
    if LineBytes(lines[0]).Some? {
      var tail := EncodeKernel(dump, nextSize, rest);
      if tail.Emitted? { Assoc(written, LineBytes(lines[0]).value, tail.bytes); }
    }
  }


  // ----- the assembler --------------------------------------------------------------------

  class BinaryEncoder {
    const dump: Dump
    var ptmFile: seq<string>
    var deviceBinary: seq<byte>

    constructor (dump: Dump)
      ensures this.dump == dump && ptmFile == [] && deviceBinary == []
    {
      this.dump := dump;
      ptmFile, deviceBinary := [], [];
    }

    /** Sum up the lines of a list from line i on, up to the next kernel. */
    static method SumList(lines: seq<string>, i: nat) returns (j: nat, calcSize: nat)
      requires i <= |lines|
      ensures j == ListEnd(lines, i)
      ensures calcSize == ListSize(lines[i..j]) % TWO_32
    {
      j, calcSize := i, 0;
      while j < |lines| && !Contains(lines[j], KERNEL_MARK)
        invariant i <= j <= |lines|
        invariant ListEnd(lines, i) == ListEnd(lines, j)
        invariant calcSize == ListSize(lines[i..j]) % TWO_32
      {
        ListSizeNext(lines, i, j, calcSize);
        calcSize := Wrap32(calcSize + LineSize(lines[j]));
        j := j + 1;
      }
    }

    method CalculatePatchListSizes() returns (ok: bool)
      modifies this`ptmFile
      ensures Fix(old(ptmFile), 0, 0) == if ok then Some(ptmFile) else None
    {
      var patchListPos, i := 0, 0;
      while i < |ptmFile|
        invariant patchListPos <= i <= |ptmFile|
        invariant Fix(old(ptmFile), 0, 0) == Fix(ptmFile, i, patchListPos)
        decreases |ptmFile| - i
      {
        if Contains(ptmFile[i], PATCH_LIST_SIZE) {
          patchListPos, i := i, i + 1;
        } else if Contains(ptmFile[i], PATCH_TOKEN) {
          ok, i := CorrectSize(patchListPos, i);
          if !ok {
            return;
          }
        } else {
          i := i + 1;
        }
      }
      ok := true;
    }

    /** The list whose first identified token is at line i: correct its size line, and skip it. */
    method CorrectSize(patchListPos: nat, i: nat) returns (ok: bool, next: nat)
      requires patchListPos <= i < |ptmFile| && Contains(ptmFile[i], PATCH_TOKEN)
        && !Contains(ptmFile[i], PATCH_LIST_SIZE)
      modifies this`ptmFile
      ensures i < next <= |ptmFile|
      ensures Fix(old(ptmFile), i, patchListPos) == if ok then Fix(ptmFile, next, patchListPos) else None
      ensures |ptmFile| == |old(ptmFile)|
    {
      var calcSize;
      next, calcSize := SumList(ptmFile, i + 1);
      var corrected := Corrected(ptmFile[patchListPos], calcSize);
      ok := corrected.Some?;
      if ok {
        ptmFile := ptmFile[patchListPos := corrected.value];
      }
      next := if next < |ptmFile| then next + 1 else next;
    }

    method WriteHexNumbers(line: string) returns (ok: bool)
      modifies this`deviceBinary
      ensures var out := HexNumbers(line, None);
        ok == out.Some? && (ok ==> deviceBinary == old(deviceBinary) + out.value)
    {
      var s, tmp, eof := line, None, false;
      ghost var whole := HexNumbers(line, None);
      ghost var written: seq<byte> := [];
      assert whole == Prepend([], whole) by { if whole.Some? { assert [] + whole.value == whole.value; } }
      while !eof
        invariant deviceBinary == old(deviceBinary) + written
        invariant whole == if eof then Some(written) else Prepend(written, HexNumbers(s, tmp))
        decreases !eof, |s|
      {
        HexStep(s, tmp, written);
        var n := ReadNumber(s, 16, TWO_16);
        if (n.Nothing? && tmp.None?) || (n.Failed? && n.rest != []) {
          return false;
        }
        eof := n.Nothing? || n.rest == [];
        if !n.Nothing? {
          s, tmp := n.rest, Some(n.value);
        }
        Assoc(old(deviceBinary), written, [tmp.value % 256]);
        deviceBinary, written := deviceBinary + [tmp.value % 256], written + [tmp.value % 256];
      }
      ok := true;
    }

    method WriteDeviceBinary(line: string) returns (ok: bool)
      modifies this`deviceBinary
      ensures ok == LineBytes(line).Some? && (ok ==> deviceBinary == old(deviceBinary) + LineBytes(line).value)
    {
      ok := true;
      if ':' in line {
      } else if Contains(line, HEX) {
        if ' ' in line || |line| >= 32 {
          ok := WriteHexNumbers(Ignore(line, 32));
        }
      } else {
        var out := FieldBytes(line);
        if out.Some? {
          deviceBinary := deviceBinary + out.value;
        }
        ok := out.Some?;
      }
    }

    /** The name, padded with NULs to the announced size, and the heaps. */
    method WriteNameAndHeaps(name: string, nameSize: nat) returns (ok: bool)
      modifies this`deviceBinary
      ensures ok == HeapBytes(dump, name).Some?
      ensures ok ==> deviceBinary == old(deviceBinary) + NameBytes(name, nameSize) + HeapBytes(dump, name).value
    {
      deviceBinary := deviceBinary + Chars(name);
      ghost var text := deviceBinary;
      var j := |name|;
      while j < nameSize
        invariant |name| <= j && (j <= nameSize || j == |name|)
        invariant deviceBinary == text + Zeros(j - |name|)
      {
        deviceBinary := deviceBinary + [0];
        j := j + 1;
      }
      Assoc(old(deviceBinary), Chars(name), Zeros(j - |name|));
      text := deviceBinary;
      ok := false;
      var general := if GeneralHeapFile(name) in dump then dump[GeneralHeapFile(name)] else [];
      deviceBinary := deviceBinary + general;
      if KernelHeapFile(name) in dump && DynamicHeapFile(name) in dump && SurfaceHeapFile(name) in dump {
        deviceBinary := deviceBinary + dump[KernelHeapFile(name)];
        deviceBinary := deviceBinary + dump[DynamicHeapFile(name)];
        deviceBinary := deviceBinary + dump[SurfaceHeapFile(name)];
        AssocFour(text, general, dump[KernelHeapFile(name)], dump[DynamicHeapFile(name)], dump[SurfaceHeapFile(name)]);
        ok := true;
      }
    }

    method ProcessKernel(start: nat) returns (ok: bool, i: nat)
      requires start <= |ptmFile|
      modifies this`deviceBinary
      ensures var k := EncodeKernel(dump, 0, ptmFile[start..]);
        && ok == k.Emitted?
        && (ok ==> start < i <= |ptmFile| && k.rest == ptmFile[i..] && deviceBinary == old(deviceBinary) + k.bytes)
    {
      var kernelNameSize;
      ghost var written;
      ok, i, kernelNameSize, written := ProcessKernelHeader(start);
      if !ok || i == |ptmFile| {
        return false, i;
      }
      ghost var end := EncodeKernel(dump, kernelNameSize, ptmFile[i..]);
      ok := ProcessKernelName(i, kernelNameSize);
      if ok { Assoc(old(deviceBinary), written, end.bytes); }
      i := i + 1;
    }

    /** The lines before the one that names the kernel, or all if there is none. */
    method ProcessKernelHeader(start: nat) returns (ok: bool, i: nat, kernelNameSize: nat, ghost written: seq<byte>)
      requires start <= |ptmFile|
      modifies this`deviceBinary
      ensures start <= i <= |ptmFile| && (ok && i < |ptmFile| ==> Contains(ptmFile[i], KERNEL_NAME_MARK))
      ensures EncodeKernel(dump, 0, ptmFile[start..])
              == if ok then PrependTo(written, EncodeKernel(dump, kernelNameSize, ptmFile[i..])) else Failure
      ensures ok ==> deviceBinary == old(deviceBinary) + written
    {
      ok, i, kernelNameSize, written := true, start, 0, [];
      ghost var whole := EncodeKernel(dump, 0, ptmFile[start..]);
      assert whole == PrependTo([], whole) by { if whole.Emitted? { assert [] + whole.bytes == whole.bytes; } }
      while i < |ptmFile| && !Contains(ptmFile[i], KERNEL_NAME_MARK)
        invariant start <= i <= |ptmFile| && ok
        invariant deviceBinary == old(deviceBinary) + written
        invariant whole == PrependTo(written, EncodeKernel(dump, kernelNameSize, ptmFile[i..]))
      {
        ghost var out, before, lines := LineBytes(ptmFile[i]), kernelNameSize, ptmFile[i..];
        if Contains(ptmFile[i], KERNEL_NAME_SIZE) {
          kernelNameSize := NameSizeOf(ptmFile[i], kernelNameSize);
        }
        ok := WriteDeviceBinary(ptmFile[i]);
        i := i + 1;
        KernelStep(dump, before, lines, written, kernelNameSize, ptmFile[i..]);
        if !ok {
          return;
        }
        Assoc(old(deviceBinary), written, out.value);
        written := written + out.value;
      }
    }

    /** The line that names a kernel: its name and its heaps end the kernel. */
    method ProcessKernelName(i: nat, kernelNameSize: nat) returns (ok: bool)
      requires i < |ptmFile| && Contains(ptmFile[i], KERNEL_NAME_MARK)
      modifies this`deviceBinary
      ensures var k := EncodeKernel(dump, kernelNameSize, ptmFile[i..]);
        && ok == k.Emitted?
        && (ok ==> k.rest == ptmFile[i + 1..] && deviceBinary == old(deviceBinary) + k.bytes)
    {
      var kernelName := AfterSpace(ptmFile[i]);
      ok := WriteNameAndHeaps(kernelName, kernelNameSize);
      if ok {
        Assoc(old(deviceBinary), NameBytes(kernelName, kernelNameSize), HeapBytes(dump, kernelName).value);
      }
      assert ptmFile[i..][1..] == ptmFile[i + 1..];
    }

    method ProcessBinary() returns (ok: bool)
      modifies this`deviceBinary
      ensures var out := EncodeLines(dump, ptmFile);
        ok == out.Some? && (ok ==> deviceBinary == old(deviceBinary) + out.value)
    {
      var i := 0;
      ghost var whole, written := EncodeLines(dump, ptmFile), [];
      assert whole == Prepend([], whole) by { if whole.Some? { assert [] + whole.value == whole.value; } }
      assert ptmFile[0..] == ptmFile;
      while i < |ptmFile|
        invariant i <= |ptmFile|
        invariant deviceBinary == old(deviceBinary) + written
        invariant whole == Prepend(written, EncodeLines(dump, ptmFile[i..]))
      {
        LinesStep(dump, ptmFile[i..], written);
        assert ptmFile[i..][1..] == ptmFile[i + 1..];
        ghost var next := NextBytes(dump, ptmFile[i..]);
        if Contains(ptmFile[i], KERNEL_MARK) {
          ok, i := ProcessKernel(i + 1);
        } else {
          ok := WriteDeviceBinary(ptmFile[i]);
          i := i + 1;
        }
        if !ok {
          return;
        }
        Assoc(old(deviceBinary), written, next.bytes);
        written := written + next.bytes;
      }
      ok := true;
    }

    /** The assembler up to its device binary. */
    method EncodeDump(ptm: string) returns (ok: bool)
      modifies this
      ensures Encode(dump, ptm) == if ok then Some(deviceBinary) else None
    {
      ptmFile, deviceBinary := Split(ptm), [];
      ok := CalculatePatchListSizes();
      if ok {
        ok := ProcessBinary();
        if ok {
          assert deviceBinary == EncodeLines(dump, ptmFile).value;
        }
      }
    }
  }
}

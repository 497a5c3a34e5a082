/** The packets of a trace file: how they are written, chunked and padded, and how a reader steps through them. */
module AubStream {
  import opened Arithmetic
  import opened Bytes
  import opened Text

  const DWORD_COUNT_MAX: nat := 65536
  /** Bytes of the memory packets before their data. */
  const MEMORY_HEADER: nat := 20
  const BLOCK_SIZE_MAX: nat := DWORD_COUNT_MAX * 4 - MEMORY_HEADER

  const REGISTER_COMPARE := 0x1
  const REGISTER_POLL := 0x2
  const REGISTER_WRITE := 0x3
  const MEMORY_COMPARE := 0x4
  const MEMORY_WRITE := 0x6
  const COMMENT := 0x8

  // ----- packets --------------------------------------------------------------------------

  /** A packet: its sub-opcode, the dwords of its header after the first, and its data before padding. */
  datatype Packet = Packet(sub: nat, fields: seq<nat>, data: seq<byte>)

  /** The length of a packet in dwords, its data padded to a whole number of them. */
  function Dwords(p: Packet): nat { 1 + |p.fields| + CeilDiv(|p.data|, 4) }

  function Padding(n: nat): (z: seq<byte>)
    ensures |z| == (4 - n % 4) % 4
  {
    Zeros((4 - n % 4) % 4)
  }

  /** The first dword: the dword count in 16 bits, then sub-opcode, opcode and type. */
  function FirstDword(sub: nat, dwordCount: nat): nat {
    dwordCount % TWO_16 + sub * TWO_16 + 0x2e * 0x80_0000 + 7 * 0x2000_0000
  }

  function DwordsBytes(fields: seq<nat>): (b: seq<byte>)
    ensures |b| == 4 * |fields|
  {
    if fields == [] then [] else LE(fields[0], 4) + DwordsBytes(fields[1..])
  }

  function HeaderBytes(p: Packet): (b: seq<byte>)
    ensures |b| == 4 + 4 * |p.fields|
  {
    LE(FirstDword(p.sub, Dwords(p) - 1), 4) + DwordsBytes(p.fields)
  }

  function PacketBytes(p: Packet): (b: seq<byte>)
    ensures |b| == 4 * Dwords(p)
  {
    RoundUp(|p.data|);
    HeaderBytes(p) + p.data + Padding(|p.data|)
  }

  lemma RoundUp(n: nat)
    ensures 4 * CeilDiv(n, 4) == n + (4 - n % 4) % 4
  {
  }

  function PacketsBytes(ps: seq<Packet>): seq<byte> {
    if ps == [] then [] else PacketBytes(ps[0]) + PacketsBytes(ps[1..])
  }

  // ----- calls ----------------------------------------------------------------------------

  datatype Call =
    | WriteMemory(address: nat, memory: seq<byte>, addressSpace: nat, hint: nat)
    | ExpectMemory(address: nat, memory: seq<byte>, addressSpace: nat, compareOperation: nat)
    | WriteMMIO(offset: nat, value: nat)
    | RegisterPoll(offset: nat, mask: nat, value: nat, pollNotEqual: bool, timeoutAction: nat)
    | ExpectMMIO(offset: nat, value: nat)
    | AddComment(message: seq<byte>)

  function Bits(v: nat, width: nat, shift: nat): nat
    requires width > 0
  {
    v % width * shift
  }

  function MemoryPacket(sub: nat, address: nat, flags: nat, memory: seq<byte>): Packet {
    Packet(sub, [Wrap32(address), Wrap32(address / TWO_32), flags, Wrap32(|memory|)], memory)
  }

  function CompareFlags(addressSpace: nat, compareOperation: nat): nat {
    Bits(compareOperation, 2, 0x80) + Bits(addressSpace, 16, 0x1000_0000)
  }

  /** The chunks of an expected range, each at the address its bytes are expected at. */
  function Chunks(address: nat, memory: seq<byte>, flags: nat): seq<Packet>
    decreases |memory|
  {
    if memory == [] then []
    else
      var n := Min(|memory|, BLOCK_SIZE_MAX);
      [MemoryPacket(MEMORY_COMPARE, address, flags, memory[..n])] + Chunks(Wrap64(address + n), memory[n..], flags)
  }

  function PacketsOf(c: Call): seq<Packet> {
    match c
    case WriteMemory(address, memory, space, hint) =>
      [MemoryPacket(MEMORY_WRITE, address, Bits(hint, 256, 0x10_0000) + Bits(space, 16, 0x1000_0000), memory)]
    case ExpectMemory(address, memory, space, op) => Chunks(address, memory, CompareFlags(space, op))
    case WriteMMIO(offset, value) => [Packet(REGISTER_WRITE, [offset, 0x2_0000, 0xffff_ffff, 0], LE(value, 4))]
    case RegisterPoll(offset, mask, value, notEqual, action) =>
      [Packet(REGISTER_POLL, [offset, Bits(action, 2, 2) + (if notEqual then 4 else 0) + 0x2_0000, mask, 0],
          LE(value, 4))]
    case ExpectMMIO(offset, value) => [Packet(REGISTER_COMPARE, [offset, 0x2_0000, 0xffff_ffff, 0xffff_ffff],
        LE(value, 4))]
    case AddComment(message) => [Packet(COMMENT, [0], message + [0])]
  }

  function PacketsOfAll(cs: seq<Call>): seq<Packet> {
    if cs == [] then [] else PacketsOf(cs[0]) + PacketsOfAll(cs[1..])
  }

  // ----- the writer -----------------------------------------------------------------------

  lemma PacketsBytesOne(p: Packet)
    ensures PacketsBytes([p]) == PacketBytes(p)
  {
    assert PacketsBytes([p]) == PacketBytes(p) + PacketsBytes([]);
  }

  lemma {:induction false} PacketsBytesAppend(a: seq<Packet>, b: seq<Packet>)
    ensures PacketsBytes(a + b) == PacketsBytes(a) + PacketsBytes(b)
  {
    if a == [] {
      assert a + b == b;
    } else {
      assert (a + b)[0] == a[0] && (a + b)[1..] == a[1..] + b;
      PacketsBytesAppend(a[1..], b);
      Assoc(PacketBytes(a[0]), PacketsBytes(a[1..]), PacketsBytes(b));
    }
  }

  class AubFileStream {
    var file: seq<byte>

    constructor ()
      ensures file == []
    {
      file := [];
    }

    method Write(data: seq<byte>)
      modifies this
      ensures file == old(file) + data
    {
      file := file + data;
    }

    /** Zeros up to the next dword. */
    method WritePadding(size: nat)
      modifies this
      ensures file == old(file) + Padding(size)
    {
      var sizeRemainder := size % 4;
      if sizeRemainder != 0 {
        Write(Zeros(4 - sizeRemainder));
      }
    }

    method WriteMemoryWriteHeader(address: nat, size: nat, addressSpace: nat, hint: nat)
      modifies this
      ensures forall memory: seq<byte> :: |memory| == size ==>
        file == old(file) + HeaderBytes(PacketsOf(WriteMemory(address, memory, addressSpace, hint))[0])
    {
      var alignedBlockSize := (size + 3) / 4 * 4;
      var dwordCount := (MEMORY_HEADER + alignedBlockSize) / 4;
      var flags := Bits(hint, 256, 0x10_0000) + Bits(addressSpace, 16, 0x1000_0000);
      Write(LE(FirstDword(MEMORY_WRITE, dwordCount - 1), 4)
            + DwordsBytes([Wrap32(address), Wrap32(address / TWO_32), flags, Wrap32(size)]));
    }

    method WriteMemoryBlock(address: nat, memory: seq<byte>, addressSpace: nat, hint: nat)
      modifies this
      ensures file == old(file) + PacketsBytes(PacketsOf(WriteMemory(address, memory, addressSpace, hint)))
    {
      ghost var p := PacketsOf(WriteMemory(address, memory, addressSpace, hint))[0];
      WriteMemoryWriteHeader(address, |memory|, addressSpace, hint);
      Write(memory);
      WritePadding(|memory|);
      AppendThree(old(file), HeaderBytes(p), memory, Padding(|memory|));
      PacketsBytesOne(p);
    }

    method WriteChunk(physAddress: nat, chunk: seq<byte>, flags: nat)
      modifies this
      ensures file == old(file) + PacketBytes(MemoryPacket(MEMORY_COMPARE, physAddress, flags, chunk))
    {
      ghost var p := MemoryPacket(MEMORY_COMPARE, physAddress, flags, chunk);
      var dwordCount := (MEMORY_HEADER + |chunk| + 3) / 4;
      Write(LE(FirstDword(MEMORY_COMPARE, dwordCount - 1), 4)
            + DwordsBytes([Wrap32(physAddress), Wrap32(physAddress / TWO_32), flags, Wrap32(|chunk|)]));
      Write(chunk);
      WritePadding(|chunk|);
      CompareHeaderIs(p, physAddress, flags, |chunk|, dwordCount);
      AppendThree(old(file), HeaderBytes(p), chunk, Padding(|chunk|));
    }

    method ExpectMemoryRange(address: nat, memory: seq<byte>, addressSpace: nat, compareOperation: nat)
      modifies this
      ensures file == old(file) + PacketsBytes(PacketsOf(ExpectMemory(address, memory, addressSpace, compareOperation)))
    {
      var flags := CompareFlags(addressSpace, compareOperation);
      var physAddress: nat, rest: seq<byte> := address, memory;
      ghost var done: seq<Packet> := [];
      while |rest| > 0
        invariant file == old(file) + PacketsBytes(done)
        invariant done + Chunks(physAddress, rest, flags) == Chunks(address, memory, flags)
        decreases |rest|
      {
        var sizeThisIteration := Min(|rest|, BLOCK_SIZE_MAX);
        ghost var p := MemoryPacket(MEMORY_COMPARE, physAddress, flags, rest[..sizeThisIteration]);
        WriteChunk(physAddress, rest[..sizeThisIteration], flags);
        PacketAppended(old(file), done, p);
        ChunkDone(done, p, physAddress, rest, flags, sizeThisIteration);
        physAddress, rest := Wrap64(physAddress + sizeThisIteration), rest[sizeThisIteration..];
        done := done + [p];
      }
      assert done + [] == done;
    }

    method WriteMMIOImpl(offset: nat, value: nat)
      modifies this
      ensures file == old(file) + PacketsBytes(PacketsOf(WriteMMIO(offset, value)))
    {
      Write(LE(FirstDword(REGISTER_WRITE, 24 / 4 - 1), 4) + DwordsBytes([offset, 0x2_0000, 0xffff_ffff,
          0]) + LE(value, 4));
      RegisterPacketIs(REGISTER_WRITE, [offset, 0x2_0000, 0xffff_ffff, 0], value);
    }

    method PollRegister(offset: nat, mask: nat, value: nat, pollNotEqual: bool, timeoutAction: nat)
      modifies this
      ensures file == old(file) + PacketsBytes(PacketsOf(RegisterPoll(offset, mask, value, pollNotEqual, timeoutAction)))
    {
      var flags := Bits(timeoutAction, 2, 2) + (if pollNotEqual then 4 else 0) + 0x2_0000;
      Write(LE(FirstDword(REGISTER_POLL, 24 / 4 - 1), 4) + DwordsBytes([offset, flags, mask, 0]) + LE(value, 4));
      RegisterPacketIs(REGISTER_POLL, [offset, flags, mask, 0], value);
    }

    method ExpectRegister(offset: nat, value: nat)
      modifies this
      ensures file == old(file) + PacketsBytes(PacketsOf(ExpectMMIO(offset, value)))
    {
      Write(LE(FirstDword(REGISTER_COMPARE, 24 / 4 - 1), 4) + DwordsBytes([offset, 0x2_0000, 0xffff_ffff,
          0xffff_ffff]) + LE(value, 4));
      RegisterPacketIs(REGISTER_COMPARE, [offset, 0x2_0000, 0xffff_ffff, 0xffff_ffff], value);
    }

    method WriteComment(message: seq<byte>)
      modifies this
      ensures file == old(file) + PacketsBytes(PacketsOf(AddComment(message)))
    {
      var messageLen := |message| + 1;
      var dwordLen := (messageLen + 3) / 4 * 4 / 4;
      ghost var p := Packet(COMMENT, [0], message + [0]);
      Write(LE(FirstDword(COMMENT, dwordLen + 1), 4) + DwordsBytes([0]));
      Write(message + [0]);
      WritePadding(messageLen);
      AppendThree(old(file), HeaderBytes(p), p.data, Padding(messageLen));
      PacketsBytesOne(p);
    }
  }

  lemma AppendThree(t: seq<byte>, a: seq<byte>, b: seq<byte>, c: seq<byte>)
    ensures t + a + b + c == t + (a + b + c)
  {
    Assoc(t, a, b);
    Assoc(t, a + b, c);
  }

  lemma CompareHeaderIs(p: Packet, address: nat, flags: nat, size: nat, dwordCount: nat)
    requires |p.data| == size && p == MemoryPacket(MEMORY_COMPARE, address, flags, p.data)
    requires dwordCount == (MEMORY_HEADER + size + 3) / 4
    ensures HeaderBytes(p) == LE(FirstDword(MEMORY_COMPARE, dwordCount - 1), 4)
                              + DwordsBytes([Wrap32(address), Wrap32(address / TWO_32), flags, Wrap32(size)])
  {
  }

  lemma ChunksNext(address: nat, rest: seq<byte>, flags: nat, n: nat)
    requires rest != [] && n == Min(|rest|, BLOCK_SIZE_MAX)
    ensures Chunks(address, rest, flags)
      == [MemoryPacket(MEMORY_COMPARE, address, flags, rest[..n])] + Chunks(Wrap64(address + n), rest[n..], flags)
  {
  }

  lemma ChunkDone(done: seq<Packet>, p: Packet, address: nat, rest: seq<byte>, flags: nat, n: nat)
    requires rest != [] && n == Min(|rest|, BLOCK_SIZE_MAX)
    requires p == MemoryPacket(MEMORY_COMPARE, address, flags, rest[..n])
    ensures done + [p] + Chunks(Wrap64(address + n), rest[n..], flags) == done + Chunks(address, rest, flags)
  {
    ChunksNext(address, rest, flags, n);
    Assoc(done, [p], Chunks(Wrap64(address + n), rest[n..], flags));
  }

  lemma PacketAppended(file: seq<byte>, done: seq<Packet>, p: Packet)
    ensures file + PacketsBytes(done) + PacketBytes(p) == file + PacketsBytes(done + [p])
  {
    PacketsBytesAppend(done, [p]);
    PacketsBytesOne(p);
    Assoc(file, PacketsBytes(done), PacketBytes(p));
  }

  lemma RegisterPacketIs(sub: nat, fields: seq<nat>, value: nat)
    requires |fields| == 4
    ensures PacketsBytes([Packet(sub, fields, LE(value, 4))])
      == LE(FirstDword(sub, 5), 4) + DwordsBytes(fields) + LE(value, 4)
  {
    var p := Packet(sub, fields, LE(value, 4));
    PacketsBytesOne(p);
    assert Padding(4) == [];
    assert PacketBytes(p) == HeaderBytes(p) + LE(value, 4) + [];
  }

  // ----- the reader -----------------------------------------------------------------------

  /** getPacketSize of the packet at the front of a file. */
  function PacketSize(file: seq<byte>): (n: nat)
    requires |file| >= 4
    ensures 1 <= n <= DWORD_COUNT_MAX
  {
    FromLE(file[..4]) % TWO_16 + 1
  }

  /** Step through a file by packet sizes; None if the last step leads past the end. */
  function Walk(file: seq<byte>): Option<seq<seq<byte>>>
    decreases |file|
  {
    if file == [] then Some([])
    else if |file| < 4 || |file| < 4 * PacketSize(file) then None
    else
      var n := 4 * PacketSize(file);
      var tail := Walk(file[n..]);
      if tail.None? then None else Some([file[..n]] + tail.value)
  }

  function Each(ps: seq<Packet>): (r: seq<seq<byte>>)
    ensures |r| == |ps|
  {
    seq(|ps|, i requires 0 <= i < |ps| => PacketBytes(ps[i]))
  }

  predicate Fits(p: Packet) { Dwords(p) <= DWORD_COUNT_MAX }

  predicate AllFit(ps: seq<Packet>) {
    ps == [] || (Fits(ps[0]) && AllFit(ps[1..]))
  }

  predicate ValidPacket(p: Packet) { p.sub < 128 }

  lemma FirstDwordCount(sub: nat, count: nat)
    requires sub < 128
    ensures FirstDword(sub, count) < TWO_32 && FirstDword(sub, count) % TWO_16 == count % TWO_16
  {
  }

  /** The size read from a packet is its length, cut down to 16 bits of dwords. */
  lemma PacketSizeIs(p: Packet, rest: seq<byte>)
    requires ValidPacket(p)
    ensures |PacketBytes(p)| >= 4 && PacketSize(PacketBytes(p) + rest) == (Dwords(p) - 1) % TWO_16 + 1
    ensures PacketSize(PacketBytes(p) + rest) == Dwords(p) <==> Fits(p)
  {
    var word := FirstDword(p.sub, Dwords(p) - 1);
    FirstDwordCount(p.sub, Dwords(p) - 1);
    Pow256Sizes();
    FromLEofLE(word, 4);
    assert (PacketBytes(p) + rest)[..4] == LE(word, 4);
  }

  lemma EachCons(ps: seq<Packet>)
    requires ps != []
    ensures Each(ps) == [PacketBytes(ps[0])] + Each(ps[1..])
  {
  }

  /** A reader lands on exactly the packets that were written if and only if every one fits 16 bits of dwords. */
  lemma {:induction false} WalkFindsIff(ps: seq<Packet>)
    requires forall i :: 0 <= i < |ps| ==> ValidPacket(ps[i])
    ensures Walk(PacketsBytes(ps)) == Some(Each(ps)) <==> AllFit(ps)
  {
    if ps != [] {
      var p, rest := ps[0], PacketsBytes(ps[1..]);
      var file := PacketBytes(p) + rest;
      PacketSizeIs(p, rest);
      WalkFindsIff(ps[1..]);
      EachCons(ps);
      if Fits(p) {
        assert file[..|PacketBytes(p)|] == PacketBytes(p) && file[|PacketBytes(p)|..] == rest;
        WalkStep(file, PacketBytes(p), rest, Each(ps[1..]));
      } else {
        WalkCut(file, PacketBytes(p), Each(ps[1..]));
      }
    }
  }

  lemma WalkStep(file: seq<byte>, first: seq<byte>, rest: seq<byte>, each: seq<seq<byte>>)
    requires file == first + rest && |file| >= 4 && |first| == 4 * PacketSize(file)
    requires file[..|first|] == first && file[|first|..] == rest
    ensures Walk(file) == Some([first] + each) <==> Walk(rest) == Some(each)
  {
    var tail := Walk(rest);
    if tail.Some? {
      assert Walk(file) == Some([first] + tail.value);
      assert [first] + tail.value == [first] + each <==> tail.value == each by {
        assert ([first] + tail.value)[1..] == tail.value && ([first] + each)[1..] == each;
      }
    }
  }

  lemma WalkCut(file: seq<byte>, first: seq<byte>, each: seq<seq<byte>>)
    requires |file| >= 4 && |first| != 4 * PacketSize(file)
    ensures Walk(file) != Some([first] + each)
  {
    if Walk(file).Some? {
      assert |Walk(file).value[0]| == 4 * PacketSize(file);
    }
  }

  // ----- whole sessions -------------------------------------------------------------------

  /** The limits of the calls that write one packet however long their data is. */
  predicate WithinLimits(c: Call) {
    match c
    case WriteMemory(_, memory, _, _) => |memory| <= BLOCK_SIZE_MAX
    case AddComment(message) => |message| + 1 <= (DWORD_COUNT_MAX - 2) * 4
    case _ => true
  }

  lemma {:induction false} ChunksFit(address: nat, memory: seq<byte>, flags: nat)
    ensures AllFit(Chunks(address, memory, flags))
    ensures forall i :: 0 <= i < |Chunks(address, memory, flags)| ==> ValidPacket(Chunks(address, memory, flags)[i])
    decreases |memory|
  {
    if memory != [] {
      var n := Min(|memory|, BLOCK_SIZE_MAX);
      ChunksFit(Wrap64(address + n), memory[n..], flags);
      assert Chunks(address, memory, flags)[1..] == Chunks(Wrap64(address + n), memory[n..], flags);
    }
  }

  lemma CallFitsIff(c: Call)
    ensures forall i :: 0 <= i < |PacketsOf(c)| ==> ValidPacket(PacketsOf(c)[i])
    ensures AllFit(PacketsOf(c)) <==> WithinLimits(c)
  {
    match c {
      case ExpectMemory(address, memory, space, op) => ChunksFit(address, memory, CompareFlags(space, op));
      case _ => assert PacketsOf(c)[1..] == [];
    }
  }

  predicate AllWithinLimits(cs: seq<Call>) {
    cs == [] || (WithinLimits(cs[0]) && AllWithinLimits(cs[1..]))
  }

  lemma {:induction false} SessionFitsIff(cs: seq<Call>)
    ensures forall i :: 0 <= i < |PacketsOfAll(cs)| ==> ValidPacket(PacketsOfAll(cs)[i])
    ensures AllFit(PacketsOfAll(cs)) <==> AllWithinLimits(cs)
  {
    if cs != [] {
      CallFitsIff(cs[0]);
      SessionFitsIff(cs[1..]);
      AllOfBoth(PacketsOf(cs[0]), PacketsOfAll(cs[1..]));
    }
  }

  lemma {:induction false} AllOfBoth(a: seq<Packet>, b: seq<Packet>)
    ensures AllFit(a + b) <==> AllFit(a) && AllFit(b)
  {
    if a == [] {
      assert a + b == b;
    } else {
      assert (a + b)[0] == a[0] && (a + b)[1..] == a[1..] + b;
      AllOfBoth(a[1..], b);
    }
  }

  /**
   * A file written by any calls is self-delimiting, header by header, exactly if every single
   * memory write and comment keeps within its limit.
   */
  lemma SessionIsFramedIff(cs: seq<Call>)
    ensures Walk(PacketsBytes(PacketsOfAll(cs))) == Some(Each(PacketsOfAll(cs))) <==> AllWithinLimits(cs)
  {
    SessionFitsIff(cs);
    WalkFindsIff(PacketsOfAll(cs));
  }

  // ----- what a reader gets out of compare packets ----------------------------------------

  /** The address and data of a memory packet, as its header gives them. */
  datatype Block = Block(address: nat, data: seq<byte>)

  function ReadBlock(packet: seq<byte>): Option<Block> {
    if |packet| < MEMORY_HEADER then None
    else
      var size := FromLE(packet[16..20]);
      if |packet| < MEMORY_HEADER + size then None
      else Some(Block(FromLE(packet[4..8]) + TWO_32 * FromLE(packet[8..12]), packet[20..20 + size]))
  }

  lemma FourDwords(a: nat, b: nat, c: nat, d: nat)
    ensures DwordsBytes([a, b, c, d]) == LE(a, 4) + LE(b, 4) + LE(c, 4) + LE(d, 4)
  {
    assert [a, b, c, d][1..] == [b, c, d] && [b, c, d][1..] == [c, d] && [c, d][1..] == [d] && [d][1..] == [];
    assert DwordsBytes([d]) == LE(d, 4) + DwordsBytes([]);
    assert DwordsBytes([c, d]) == LE(c, 4) + LE(d, 4);
    assert DwordsBytes([b, c, d]) == LE(b, 4) + (LE(c, 4) + LE(d, 4));
  }

  lemma MemoryPacketParts(first: seq<byte>, low: seq<byte>, high: seq<byte>, flags: seq<byte>, size: seq<byte>,
      data: seq<byte>,
                          padding: seq<byte>)
    requires |first| == |low| == |high| == |flags| == |size| == 4
    ensures var b := first + (low + high + flags + size) + data + padding;
      b[4..8] == low && b[8..12] == high && b[16..20] == size && b[20..20 + |data|] == data
  {
    var h := low + high + flags + size;
    var b := first + h + data + padding;
    assert h[0..4] == low && h[4..8] == high && h[12..16] == size;
    assert b[4..8] == h[0..4] && b[8..12] == h[4..8] && b[16..20] == h[12..16];
  }

  lemma ReadBlockOfParts(b: seq<byte>, first: seq<byte>, low: seq<byte>, high: seq<byte>, flags: seq<byte>, size: seq<byte>,
      memory: seq<byte>, padding: seq<byte>)
    requires |first| == |low| == |high| == |flags| == |size| == 4 && FromLE(size) == |memory|
    requires b == first + (low + high + flags + size) + memory + padding
    ensures ReadBlock(b) == Some(Block(FromLE(low) + TWO_32 * FromLE(high), memory))
  {
    MemoryPacketParts(first, low, high, flags, size, memory, padding);
    assert |b| >= MEMORY_HEADER + |memory| by { assert |b| == 20 + |memory| + |padding|; }
    BlockOf(b, FromLE(low), FromLE(high), |memory|, memory);
  }

  lemma SplitAddress(address: nat)
    requires address < TWO_64
    ensures Wrap32(address / TWO_32) == address / TWO_32 && Wrap32(address) + TWO_32 * (address / TWO_32) == address
  {
  }

  lemma MemoryPacketIs(p: Packet, first: seq<byte>, low: nat, high: nat, flags: nat, memory: seq<byte>)
    requires p.fields == [low, high, flags, |memory|] && p.data == memory
    requires first == LE(FirstDword(p.sub, Dwords(p) - 1), 4)
    ensures PacketBytes(p) == first + (LE(low, 4) + LE(high, 4) + LE(flags, 4) + LE(|memory|,
      4)) + memory + Padding(|memory|)
  {
    FourDwords(low, high, flags, |memory|);
    PacketBytesIs(p, first, LE(low, 4) + LE(high, 4) + LE(flags, 4) + LE(|memory|, 4));
  }

  lemma PacketBytesIs(p: Packet, first: seq<byte>, fields: seq<byte>)
    requires first == LE(FirstDword(p.sub, Dwords(p) - 1), 4) && fields == DwordsBytes(p.fields)
    ensures PacketBytes(p) == first + fields + p.data + Padding(|p.data|)
  {
  }

  /** A memory packet gives back its address and its data without the padding. */
  lemma ReadBlockOfPacket(sub: nat, address: nat, flags: nat, memory: seq<byte>)
    requires address < TWO_64 && |memory| < TWO_32
    ensures ReadBlock(PacketBytes(MemoryPacket(sub, address, flags, memory))) == Some(Block(address, memory))
  {
    var p := MemoryPacket(sub, address, flags, memory);
    var first, low, high := LE(FirstDword(p.sub, Dwords(p) - 1), 4), Wrap32(address), address / TWO_32;
    SplitAddress(address);
    MemoryPacketIs(p, first, low, high, flags, memory);
    Pow256Sizes();
    FromLEofLE(low, 4);
    FromLEofLE(high, 4);
    FromLEofLE(|memory|, 4);
    ReadBlockOfParts(PacketBytes(p), first, LE(low, 4), LE(high, 4), LE(flags, 4), LE(|memory|, 4), memory, Padding(|memory|));
  }

  lemma BlockOf(b: seq<byte>, low: nat, high: nat, size: nat, memory: seq<byte>)
    requires |b| >= MEMORY_HEADER + size && |memory| == size
    requires FromLE(b[4..8]) == low && FromLE(b[8..12]) == high && FromLE(b[16..20]) == size && b[20..20 + size] == memory
    ensures ReadBlock(b) == Some(Block(low + TWO_32 * high, memory))
  {
  }

  function Expected(ps: seq<Packet>): Option<seq<byte>> {
    if ps == [] then Some([])
    else
      var first, tail := ReadBlock(PacketBytes(ps[0])), Expected(ps[1..]);
      if first.None? || tail.None? then None else Some(first.value.data + tail.value)
  }

  /** The data read from the packets of one expected range, put together, is the range. */
  lemma {:induction false} ChunksReassemble(address: nat, memory: seq<byte>, flags: nat)
    requires address < TWO_64
    ensures Expected(Chunks(address, memory, flags)) == Some(memory)
    decreases |memory|
  {
    if memory != [] {
      var n := Min(|memory|, BLOCK_SIZE_MAX);
      ReadBlockOfPacket(MEMORY_COMPARE, address, flags, memory[..n]);
      ChunksReassemble(Wrap64(address + n), memory[n..], flags);
      assert Chunks(address, memory, flags)[1..] == Chunks(Wrap64(address + n), memory[n..], flags);
      TakeDrop(memory, n);
    }
  }

  lemma ChunkTail(address: nat, memory: seq<byte>, flags: nat, i: nat) returns (next: nat, rest: seq<byte>)
    requires 0 < i < |Chunks(address, memory, flags)|
    ensures |memory| > BLOCK_SIZE_MAX && rest == memory[BLOCK_SIZE_MAX..]
    ensures next == Wrap64(address + BLOCK_SIZE_MAX) < TWO_64
    ensures |Chunks(address, memory, flags)| == 1 + |Chunks(next, rest, flags)|
    ensures Chunks(address, memory, flags)[i] == Chunks(next, rest, flags)[i - 1]
  {
    var n := Min(|memory|, BLOCK_SIZE_MAX);
    next, rest := Wrap64(address + n), memory[n..];
    assert Chunks(address, memory, flags)[1..] == Chunks(next, rest, flags);
  }

  lemma FullNeedsNoPadding()
    ensures Padding(BLOCK_SIZE_MAX) == []
  {
  }

  /** The chunk of the block that starts at byte offset at. */
  function ChunkAt(address: nat, memory: seq<byte>, flags: nat, at: nat): Packet
    requires at <= |memory|
  {
    MemoryPacket(MEMORY_COMPARE, Wrap64(address + at), flags, memory[at..Min(|memory|, at + BLOCK_SIZE_MAX)])
  }

  lemma ChunkAtTail(address: nat, memory: seq<byte>, flags: nat, at: nat)
    requires at + BLOCK_SIZE_MAX <= |memory|
    ensures ChunkAt(Wrap64(address + BLOCK_SIZE_MAX), memory[BLOCK_SIZE_MAX..], flags, at)
            == ChunkAt(address, memory, flags, BLOCK_SIZE_MAX + at)
  {
    var end := Min(|memory[BLOCK_SIZE_MAX..]|, at + BLOCK_SIZE_MAX);
    Wrap64Sum(address + BLOCK_SIZE_MAX, at);
    TailSlice(memory, BLOCK_SIZE_MAX, at, end);
    assert BLOCK_SIZE_MAX + end == Min(|memory|, BLOCK_SIZE_MAX + at + BLOCK_SIZE_MAX);
  }

  lemma TailSlice(s: seq<byte>, n: nat, lo: nat, hi: nat)
    requires n <= |s| && lo <= hi <= |s| - n
    ensures s[n..][lo..hi] == s[n + lo..n + hi]
  {
  }

  /** Chunk i is that of block i, and full unless it is the last. */
  lemma {:induction false} ChunkIs(address: nat, memory: seq<byte>, flags: nat, i: nat, at: nat, p: Packet)
    requires address < TWO_64 && i < |Chunks(address, memory, flags)| && at == i * BLOCK_SIZE_MAX
    requires p == Chunks(address, memory, flags)[i]
    ensures at <= |memory| && p == ChunkAt(address, memory, flags, at)
    ensures i + 1 < |Chunks(address, memory, flags)| ==> at + BLOCK_SIZE_MAX <= |memory|
    decreases i
  {
    if i > 0 {
      var next, rest := ChunkTail(address, memory, flags, i);
      ChunkIs(next, rest, flags, i - 1, at - BLOCK_SIZE_MAX, p);
      ChunkAtTail(address, memory, flags, at - BLOCK_SIZE_MAX);
    } else {
      ChunkFirst(address, memory, flags);
    }
  }

  lemma ChunkFirst(address: nat, memory: seq<byte>, flags: nat)
    requires address < TWO_64 && memory != []
    ensures |Chunks(address, memory, flags)| > 0
      && Chunks(address, memory, flags)[0] == ChunkAt(address, memory, flags, 0)
    ensures 1 < |Chunks(address, memory, flags)| ==> BLOCK_SIZE_MAX <= |memory|
  {
    var n := Min(|memory|, BLOCK_SIZE_MAX);
    ChunksNext(address, memory, flags, n);
    assert Wrap64(address) == address;
    if |memory| < BLOCK_SIZE_MAX { assert memory[n..] == []; }
  }

  /**
   * Chunk i is read back at the address where the ones before it end; all chunks but the last are
   * full and so need no padding.
   */
  lemma ChunksAreContiguous(address: nat, memory: seq<byte>, flags: nat, i: nat, at: nat)
    requires address < TWO_64 && i < |Chunks(address, memory, flags)| && at == i * BLOCK_SIZE_MAX
    ensures var p := Chunks(address, memory, flags)[i];
      && ReadBlock(PacketBytes(p)) == Some(Block(Wrap64(address + at), p.data))
      && at <= |memory| && p.data == memory[at..Min(|memory|, at + BLOCK_SIZE_MAX)]
      && (i + 1 < |Chunks(address, memory, flags)| ==> |p.data| == BLOCK_SIZE_MAX && Padding(|p.data|) == [])
  {
    ChunkIs(address, memory, flags, i, at, Chunks(address, memory, flags)[i]);
    ReadBlockOfPacket(MEMORY_COMPARE, Wrap64(address + at), flags, memory[at..Min(|memory|, at + BLOCK_SIZE_MAX)]);
    FullNeedsNoPadding();
  }

  // ----- the dwords of the packets --------------------------------------------------------

  /** Dword i of a packet. */
  function DwordAt(b: seq<byte>, i: nat): nat
    requires 4 * i + 4 <= |b|
  {
    FromLE(b[4 * i..4 * i + 4])
  }

  /** The fields of the first dword: count, sub-opcode, opcode and type, from the low bits up. */
  predicate HeaderIs(b: seq<byte>, sub: nat, count: nat) {
    && |b| >= 4 && DwordAt(b, 0) % 0x1_0000 == count && DwordAt(b, 0) / 0x1_0000 % 0x80 == sub
    && DwordAt(b, 0) / 0x80_0000 % 0x40 == 0x2e && DwordAt(b, 0) / 0x2000_0000 == 7
  }

  lemma FirstDwordFields(sub: nat, count: nat)
    requires sub < 128 && count < 0x1_0000
    ensures var d := FirstDword(sub, count);
      && d < TWO_32 && d % 0x1_0000 == count && d / 0x1_0000 % 0x80 == sub && d / 0x80_0000 % 0x40 == 0x2e && d / 0x2000_0000 == 7
  {
  }

  lemma DwordOf(b: seq<byte>, i: nat, v: nat)
    requires 4 * i + 4 <= |b| && b[4 * i..4 * i + 4] == LE(v, 4) && v < TWO_32
    ensures DwordAt(b, i) == v
  {
    Pow256Sizes();
    FromLEofLE(v, 4);
  }

  lemma FourFieldSlices(first: seq<byte>, a: seq<byte>, b: seq<byte>, c: seq<byte>, d: seq<byte>, data: seq<byte>, padding: seq<byte>)
    requires |first| == |a| == |b| == |c| == |d| == 4
    ensures var p := first + (a + b + c + d) + data + padding;
      && |p| == 20 + |data| + |padding| && p[0..4] == first && p[4..8] == a && p[8..12] == b && p[12..16] == c && p[16..20] == d
      && p[20..20 + |data|] == data && p[20 + |data|..] == padding
  {
  }

  /** A packet of four header dwords behind the first, its data and the zeros up to a whole dword. */
  lemma FourFieldPacket(sub: nat, w: nat, x: nat, y: nat, z: nat, data: seq<byte>)
    requires sub < 128 && w < TWO_32 && x < TWO_32 && y < TWO_32 && z < TWO_32 && 5 + CeilDiv(|data|, 4) <= 0x1_0000
    ensures var b := PacketBytes(Packet(sub, [w, x, y, z], data));
      && |b| == 20 + |data| + (4 - |data| % 4) % 4 && HeaderIs(b, sub, 4 + CeilDiv(|data|, 4))
      && DwordAt(b, 1) == w && DwordAt(b, 2) == x && DwordAt(b, 3) == y && DwordAt(b, 4) == z
      && b[20..20 + |data|] == data && forall i :: 20 + |data| <= i < |b| ==> b[i] == 0
  {
    var p := Packet(sub, [w, x, y, z], data);
    var b, first := PacketBytes(p), FirstDword(sub, Dwords(p) - 1);
    FourDwords(w, x, y, z);
    FourFieldSlices(LE(first, 4), LE(w, 4), LE(x, 4), LE(y, 4), LE(z, 4), data, Padding(|data|));
    FirstDwordFields(sub, Dwords(p) - 1);
    DwordOf(b, 0, first);
    DwordOf(b, 1, w);
    DwordOf(b, 2, x);
    DwordOf(b, 3, y);
    DwordOf(b, 4, z);
    ZerosBehind(b, 20 + |data|, Padding(|data|));
  }

  lemma ZerosBehind(b: seq<byte>, n: nat, padding: seq<byte>)
    requires n <= |b| && b[n..] == padding && forall i :: 0 <= i < |padding| ==> padding[i] == 0
    ensures forall i :: n <= i < |b| ==> b[i] == 0
  {
    forall i | n <= i < |b| ensures b[i] == 0 { assert b[i] == padding[i - n]; }
  }

  /** The bytes of a register packet: six dwords. */
  predicate RegisterBytes(b: seq<byte>, sub: nat, w: nat, x: nat, y: nat, z: nat, value: nat) {
    && |b| == 24 && HeaderIs(b, sub, 5) && DwordAt(b, 1) == w && DwordAt(b, 2) == x && DwordAt(b, 3) == y
    && DwordAt(b, 4) == z && DwordAt(b, 5) == value
  }

  lemma RegisterBytesAre(sub: nat, w: nat, x: nat, y: nat, z: nat, value: nat)
    requires sub < 128 && w < TWO_32 && x < TWO_32 && y < TWO_32 && z < TWO_32 && value < TWO_32
    ensures RegisterBytes(PacketsBytes([Packet(sub, [w, x, y, z], LE(value, 4))]), sub, w, x, y, z, value)
  {
    var p := Packet(sub, [w, x, y, z], LE(value, 4));
    PacketsBytesOne(p);
    FourFieldPacket(sub, w, x, y, z, LE(value, 4));
    DwordOf(PacketBytes(p), 5, value);
  }

  /** A register write: offset, dword size, a mask of the low half, and the value. */
  lemma RegisterWriteIs(offset: nat, value: nat)
    requires offset < TWO_32 && value < TWO_32
    ensures RegisterBytes(PacketsBytes(PacketsOf(WriteMMIO(offset, value))), 3, offset, 0x2_0000, 0xffff_ffff, 0, value)
  {
    RegisterBytesAre(3, offset, 0x2_0000, 0xffff_ffff, 0, value);
  }

  /** A register poll: the action on a timeout in bit 1, the inverted comparison in bit 2, then mask and value. */
  lemma RegisterPollIs(offset: nat, mask: nat, value: nat, notEqual: bool, action: nat)
    requires offset < TWO_32 && mask < TWO_32 && value < TWO_32
    ensures RegisterBytes(PacketsBytes(PacketsOf(RegisterPoll(offset, mask, value, notEqual, action))), 2, offset,
                          0x2_0000 + (if notEqual then 4 else 0) + (if action % 2 == 1 then 2 else 0), mask, 0, value)
  {
    RegisterBytesAre(2, offset, Bits(action, 2, 2) + (if notEqual then 4 else 0) + 0x2_0000, mask, 0, value);
  }

  /** An expected register: offset, dword size, a full mask, and the value. */
  lemma RegisterCompareIs(offset: nat, value: nat)
    requires offset < TWO_32 && value < TWO_32
    ensures RegisterBytes(PacketsBytes(PacketsOf(ExpectMMIO(offset, value))), 1, offset, 0x2_0000, 0xffff_ffff, 0xffff_ffff, value)
  {
    RegisterBytesAre(1, offset, 0x2_0000, 0xffff_ffff, 0xffff_ffff, value);
  }

  /** The bytes of a memory packet: address, flags and size, the data, and zeros up to a whole dword. */
  ghost predicate MemoryBytes(b: seq<byte>, sub: nat, address: nat, flags: nat, data: seq<byte>) {
    && |b| == 20 + |data| + (4 - |data| % 4) % 4 && HeaderIs(b, sub, |b| / 4 - 1)
    && DwordAt(b, 1) == address % 0x1_0000_0000 && DwordAt(b, 2) == address / 0x1_0000_0000
    && DwordAt(b, 3) == flags && DwordAt(b, 4) == |data| && b[20..20 + |data|] == data
    && forall i :: 20 + |data| <= i < |b| ==> b[i] == 0
  }

  lemma MemoryBytesAre(sub: nat, address: nat, flags: nat, data: seq<byte>)
    requires sub < 128 && address < TWO_64 && flags < TWO_32 && 5 + CeilDiv(|data|, 4) <= 0x1_0000
    ensures MemoryBytes(PacketBytes(MemoryPacket(sub, address, flags, data)), sub, address, flags, data)
  {
    SplitAddress(address);
    assert |data| < TWO_32 && 20 + |data| + (4 - |data| % 4) % 4 == 4 * (5 + CeilDiv(|data|, 4));
    FourFieldPacket(sub, Wrap32(address), Wrap32(address / TWO_32), flags, Wrap32(|data|), data);
  }

  /** A memory write, with the data type hint in bits 20 to 27 and the address space above. */
  lemma MemoryWriteIs(address: nat, memory: seq<byte>, addressSpace: nat, hint: nat)
    requires address < TWO_64 && addressSpace < 16 && hint < 256 && 5 + CeilDiv(|memory|, 4) <= 0x1_0000
    ensures MemoryBytes(PacketsBytes(PacketsOf(WriteMemory(address, memory, addressSpace, hint))), 6, address,
                        hint * 0x10_0000 + addressSpace * 0x1000_0000, memory)
  {
    OnePacketBytes(PacketsOf(WriteMemory(address, memory, addressSpace, hint)), 6, address,
                   hint * 0x10_0000 + addressSpace * 0x1000_0000, memory);
  }

  lemma OnePacketBytes(ps: seq<Packet>, sub: nat, address: nat, flags: nat, data: seq<byte>)
    requires ps == [MemoryPacket(sub, address, flags, data)]
    requires sub < 128 && address < TWO_64 && flags < TWO_32 && 5 + CeilDiv(|data|, 4) <= 0x1_0000
    ensures MemoryBytes(PacketsBytes(ps), sub, address, flags, data)
  {
    PacketsBytesOne(MemoryPacket(sub, address, flags, data));
    MemoryBytesAre(sub, address, flags, data);
  }

  lemma OneChunk(address: nat, memory: seq<byte>, flags: nat)
    requires 0 < |memory| <= BLOCK_SIZE_MAX
    ensures Chunks(address, memory, flags) == [MemoryPacket(4, address, flags, memory)]
  {
    ChunksNext(address, memory, flags, |memory|);
    var none: seq<byte>, nothing: seq<Packet> := [], [];
    assert memory[..|memory|] == memory && memory[|memory|..] == none;
    assert Chunks(Wrap64(address + |memory|), none, flags) == nothing;
    assert [MemoryPacket(4, address, flags, memory)] + nothing == [MemoryPacket(4, address, flags, memory)];
  }

  /** Expected memory of one chunk, with the comparison in bit 7 and the address space in the top bits. */
  lemma MemoryCompareIs(address: nat, memory: seq<byte>, addressSpace: nat, compareOperation: nat)
    requires address < TWO_64 && addressSpace < 16 && compareOperation < 2 && 0 < |memory| <= 4 * 0x1_0000 - 20
    ensures MemoryBytes(PacketsBytes(PacketsOf(ExpectMemory(address, memory, addressSpace, compareOperation))), 4, address,
                        compareOperation * 0x80 + addressSpace * 0x1000_0000, memory)
  {
    var flags := compareOperation * 0x80 + addressSpace * 0x1000_0000;
    CompareFlagsAre(addressSpace, compareOperation);
    OneChunk(address, memory, flags);
    OnePacketBytes(PacketsOf(ExpectMemory(address, memory, addressSpace, compareOperation)), 4, address, flags, memory);
  }

  lemma CompareFlagsAre(addressSpace: nat, compareOperation: nat)
    requires addressSpace < 16 && compareOperation < 2
    ensures CompareFlags(addressSpace, compareOperation) == compareOperation * 0x80 + addressSpace * 0x1000_0000 < TWO_32
  {
  }

  /** A comment: a zero dword, the message, its closing NUL and zeros up to a whole dword. */
  lemma CommentIs(message: seq<byte>)
    requires 2 + CeilDiv(|message| + 1, 4) <= 0x1_0000
    ensures var b := PacketsBytes(PacketsOf(AddComment(message)));
      && |b| >= 8 + |message| + 1 && |b| % 4 == 0 && HeaderIs(b, 8, |b| / 4 - 1) && DwordAt(b, 1) == 0
      && b[8..8 + |message|] == message && forall i :: 8 + |message| <= i < |b| ==> b[i] == 0
  {
    var p := Packet(8, [0], message + [0]);
    var b, first := PacketBytes(p), FirstDword(8, Dwords(p) - 1);
    PacketsBytesOne(p);
    assert DwordsBytes([0]) == LE(0, 4) + DwordsBytes([]);
    assert LE(0, 4) + DwordsBytes([]) == LE(0, 4);
    CommentSlices(LE(first, 4), LE(0, 4), message, Padding(|message| + 1));
    FirstDwordFields(8, Dwords(p) - 1);
    DwordOf(b, 0, first);
    DwordOf(b, 1, 0);
    ZerosBehind(b, 8 + |message|, [0] + Padding(|message| + 1));
  }

  lemma CommentSlices(first: seq<byte>, zero: seq<byte>, message: seq<byte>, padding: seq<byte>)
    requires |first| == |zero| == 4
    ensures var p := first + zero + (message + [0]) + padding;
      && p[0..4] == first && p[4..8] == zero && p[8..8 + |message|] == message && p[8 + |message|..] == [0] + padding
  {
  }
}

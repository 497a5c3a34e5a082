/** The ELF reader: validation, the section headers it collects, and what it makes of a written binary. */
module ElfReader {
  import opened Arithmetic
  import opened Bytes
  import opened Text
  import opened ElfWriter

  /** The fields of a section header that are kept. */
  datatype Header = Header(name: nat, kind: nat, flag: nat, offset: nat, size: nat)

  /** An exception, a read past the end of the binary that no check stops, or the headers. */
  datatype Outcome = Rejected | OutOfBounds | Accepted(headers: seq<Header>)

  function ReadHeader(b: seq<byte>, at: nat): Header
    requires at + SECTION_HEADER_SIZE <= |b|
  {
    Header(Num(b, at, 4), Num(b, at + 4, 4), Num(b, at + 8, 8), Num(b, at + 24, 8), Num(b, at + 32, 8))
  }

  predicate GoodIdentity(b: seq<byte>)
    requires |b| >= HEADER_SIZE
  {
    b[0] == 0x7f && b[1] == 0x45 && b[2] == 0x4c && b[3] == 0x46 && b[4] == CLASS_64
  }

  /** The place of entry i of a table. */
  function EntryAt(start: nat, i: nat, entrySize: nat): nat { start + i * entrySize }

  /** Where names are counted from: the header of the name table section, if that is within the binary. */
  function NameTable(b: seq<byte>): Option<nat>
    requires |b| >= HEADER_SIZE
  {
    var at := EntryAt(Num(b, 40, 8), Num(b, 62, 2), Num(b, 58, 2));
    if Num(b, 62, 2) < Num(b, 60, 2) && at <= |b| then Some(at) else None
  }

  /** The data and the name lie within the binary; with no name table the name is not looked at. */
  predicate HeaderFits(b: seq<byte>, nameTable: Option<nat>, h: Header) {
    h.offset + h.size <= |b| && (nameTable.Some? ==> nameTable.value + h.name <= |b|)
  }

  /** One header, checked. */
  function Entry(b: seq<byte>, at: nat, nameTable: Option<nat>): (r: Outcome)
    ensures r.Accepted? ==> |r.headers| == 1
  {
    if at > |b| then Rejected
    else if at + SECTION_HEADER_SIZE > |b| then OutOfBounds
    else if !HeaderFits(b, nameTable, ReadHeader(b, at)) then Rejected
    else Accepted([ReadHeader(b, at)])
  }

  /** What the header of a file says about its table of section headers. */
  datatype Table = Table(start: nat, entrySize: nat, sections: nat, nameTable: Option<nat>)

  function TableOf(b: seq<byte>): Table
    requires |b| >= HEADER_SIZE
  {
    Table(Num(b, 40, 8), Num(b, 58, 2), Num(b, 60, 2), NameTable(b))
  }

  /** The loop over the headers from number i on, with the size summed up so far. */
  function Scan(b: seq<byte>, t: Table, i: nat, ourSize: nat, headers: seq<Header>): Outcome
    requires i <= t.sections
    decreases t.sections - i
  {
    if i == t.sections then (if ourSize == |b| then Accepted(headers) else Rejected)
    else
      var h := Entry(b, EntryAt(t.start, i, t.entrySize), t.nameTable);
      if !h.Accepted? then h
      else Scan(b, t, i + 1, ourSize + h.headers[0].size + t.entrySize, headers + h.headers)
  }

  lemma ScanNext(b: seq<byte>, t: Table, i: nat, ourSize: nat, headers: seq<Header>)
    requires i < t.sections
    ensures var h := Entry(b, EntryAt(t.start, i, t.entrySize), t.nameTable);
      Scan(b, t, i, ourSize, headers) ==
        if h.Accepted? then Scan(b, t, i + 1, ourSize + h.headers[0].size + t.entrySize, headers + h.headers) else h
  {
  }

  function Validate(b: seq<byte>): Outcome {
    if |b| < HEADER_SIZE || !GoodIdentity(b) then Rejected else Scan(b, TableOf(b), 0, Num(b, 52, 2), [])
  }

  class CElfReader {
    var sectionHeaders: seq<Header>
    var beginBinary: seq<byte>

    constructor ()
      ensures sectionHeaders == [] && beginBinary == []
    {
      sectionHeaders, beginBinary := [], [];
    }

    static method CheckHeader(b: seq<byte>, at: nat, nameTable: Option<nat>) returns (ok: bool, inBounds: bool, h: Header)
      ensures Entry(b, at, nameTable) == if ok then Accepted([h]) else if inBounds then Rejected else OutOfBounds
      ensures ok ==> inBounds
    {
      ok, inBounds, h := false, true, Header(0, 0, 0, 0, 0);
      if at > |b| {
        return;
      }
      if at + SECTION_HEADER_SIZE > |b| {
        return false, false, h;
      }
      h := ReadHeader(b, at);
      ok := HeaderFits(b, nameTable, h);
    }

    method ValidateElfBinary(elfBinary: seq<byte>) returns (ok: bool, inBounds: bool)
      requires sectionHeaders == []
      modifies this
      ensures beginBinary == elfBinary
      ensures Validate(elfBinary) == if ok then Accepted(sectionHeaders) else if inBounds then Rejected else OutOfBounds
    {
      beginBinary := elfBinary;
      ok, inBounds := false, true;
      if |elfBinary| < HEADER_SIZE || !GoodIdentity(elfBinary) {
        return;
      }
      var ourSize: nat, t := Num(elfBinary, 52, 2), TableOf(elfBinary);
      ok, inBounds := ScanHeaders(elfBinary, t, ourSize);
    }

    method ScanHeaders(b: seq<byte>, t: Table, headerSize: nat) returns (ok: bool, inBounds: bool)
      modifies this`sectionHeaders
      ensures Scan(b, t, 0, headerSize, old(sectionHeaders)) ==
        if ok then Accepted(sectionHeaders) else if inBounds then Rejected else OutOfBounds
    {
      var ourSize: nat, i: nat := headerSize, 0;
      ok, inBounds := true, true;
      while i < t.sections
        invariant i <= t.sections && ok && inBounds
        invariant Scan(b, t, 0, headerSize, old(sectionHeaders)) == Scan(b, t, i, ourSize, sectionHeaders)
      {
        var h;
        ScanNext(b, t, i, ourSize, sectionHeaders);
        ok, inBounds, h := CheckHeader(b, EntryAt(t.start, i, t.entrySize), t.nameTable);
        if !ok {
          return;
        }
        sectionHeaders := sectionHeaders + [h];
        ourSize := ourSize + h.size + t.entrySize;
        i := i + 1;
      }
      ok := ourSize == |b|;
    }
  }

  // ----- a written binary -----------------------------------------------------------------

  function NodeHeader(nodes: seq<Node>, i: nat): Header
    requires i < |nodes|
  {
    Header(NameOffset(nodes, i), nodes[i].kind, nodes[i].flag, DataStart(nodes) + DataOffset(nodes, i), nodes[i].dataSize)
  }

  function TableHeader(nodes: seq<Node>): Header {
    Header(0, STRING_TABLE_TYPE, 0, StringStart(nodes), NameOffset(nodes, |nodes|))
  }

  /** The headers of the first i sections. */
  function NodeHeaders(nodes: seq<Node>, i: nat): (r: seq<Header>)
    requires i <= |nodes|
    ensures |r| == i
  {
    if i == 0 then [] else NodeHeaders(nodes, i - 1) + [NodeHeader(nodes, i - 1)]
  }

  /** The table of a written binary: n sections and the name table. */
  function WrittenTable(n: nat): Table { Table(HEADER_SIZE, SECTION_HEADER_SIZE, n + 1, Some(HeaderAt(n))) }

  lemma IdentityBytes(b: seq<byte>)
    requires |b| >= HEADER_SIZE && Holds(b, 0, 4, FromLE(MAGIC)) && Holds(b, 4, 1, 2)
    ensures GoodIdentity(b)
  {
    LEofFromLE(b[0..4]);
    LEofFromLE(MAGIC);
    assert b[0..4] == MAGIC;
    assert b[0] == b[0..4][0] && b[1] == b[0..4][1] && b[2] == b[0..4][2] && b[3] == b[0..4][3];
    assert b[4..5] == [b[4]] && [b[4]][1..] == [];
    assert FromLE([b[4]]) == b[4] + 256 * FromLE([]);
  }

  lemma HeaderRead(b: seq<byte>, kind: nat, machine: nat, flag: nat, n: nat)
    requires ElfHeader(b, kind, machine, flag, n + 1) && n + 1 < TWO_16 && HeaderAt(n) <= |b|
    ensures GoodIdentity(b) && TableOf(b) == WrittenTable(n) && Num(b, 52, 2) == HEADER_SIZE
  {
    IdentityBytes(b);
  }

  lemma SectionFits(b: seq<byte>, nodes: seq<Node>, i: nat)
    requires i < |nodes| && ValidNodes(nodes) && |b| >= TotalSize(nodes)
    ensures HeaderFits(b, Some(HeaderAt(|nodes|)), NodeHeader(nodes, i)) && HeaderFits(b, Some(HeaderAt(|nodes|)), TableHeader(nodes))
  {
    OwnRegion(nodes, i);
  }

  lemma TableFits(b: seq<byte>, nodes: seq<Node>)
    requires |b| >= TotalSize(nodes)
    ensures HeaderFits(b, Some(HeaderAt(|nodes|)), TableHeader(nodes))
  {
  }

  lemma ReadSectionHeader(b: seq<byte>, at: nat, h: Header)
    requires at + SECTION_HEADER_SIZE <= |b| && SectionHeader(b, at, h.name, h.kind, h.flag, h.offset, h.size)
    ensures ReadHeader(b, at) == h
  {
  }

  lemma EntryRead(b: seq<byte>, at: nat, nameTable: Option<nat>, h: Header)
    requires at + SECTION_HEADER_SIZE <= |b| && ReadHeader(b, at) == h && HeaderFits(b, nameTable, h)
    ensures Entry(b, at, nameTable) == Accepted([h])
  {
  }

  lemma SectionHeaderRead(b: seq<byte>, nodes: seq<Node>, i: nat)
    requires i < |nodes| && ValidNodes(nodes) && |b| >= TotalSize(nodes) && Written(b, nodes, i)
    ensures Entry(b, HeaderAt(i), Some(HeaderAt(|nodes|))) == Accepted([NodeHeader(nodes, i)])
  {
    OwnRegion(nodes, i);
    SectionFits(b, nodes, i);
    ReadSectionHeader(b, HeaderAt(i), NodeHeader(nodes, i));
    EntryRead(b, HeaderAt(i), Some(HeaderAt(|nodes|)), NodeHeader(nodes, i));
  }

  // ----- scanning a table of good headers --------------------------------------------------

  function Sizes(hs: seq<Header>): nat {
    if hs == [] then 0 else hs[0].size + Sizes(hs[1..])
  }

  /** The entries from number i on are good and read as hs. */
  predicate Entries(b: seq<byte>, t: Table, i: nat, hs: seq<Header>)
    decreases |hs|
  {
    hs == [] || (Entry(b, EntryAt(t.start, i, t.entrySize), t.nameTable) == Accepted([hs[0]])
        && Entries(b, t, i + 1, hs[1..]))
  }

  /** A table of good headers is accepted if all it accounts for is the size of the binary. */
  lemma {:induction false} ScanEntries(b: seq<byte>, t: Table, i: nat, ourSize: nat, headers: seq<Header>,
      hs: seq<Header>)
    requires i + |hs| == t.sections && Entries(b, t, i, hs)
    ensures Scan(b, t, i, ourSize, headers)
            == if ourSize + Sizes(hs) + |hs| * t.entrySize == |b| then Accepted(headers + hs) else Rejected
    decreases |hs|
  {
    if hs == [] {
      assert headers + hs == headers;
    } else {
      ScanNext(b, t, i, ourSize, headers);
      ScanEntries(b, t, i + 1, ourSize + hs[0].size + t.entrySize, headers + [hs[0]], hs[1..]);
      assert headers + [hs[0]] + hs[1..] == headers + hs;
      Times(|hs[1..]|, t.entrySize);
    }
  }

  lemma Times(n: nat, m: nat)
    ensures (n + 1) * m == n * m + m
  {
  }

  lemma {:induction false} SizesAppend(hs: seq<Header>, h: Header)
    ensures Sizes(hs + [h]) == Sizes(hs) + h.size
  {
    if hs == [] {
      assert [] + [h] == [h] && [h][1..] == [];
    } else {
      assert (hs + [h])[1..] == hs[1..] + [h];
      SizesAppend(hs[1..], h);
    }
  }

  lemma {:induction false} EntriesAppend(b: seq<byte>, t: Table, i: nat, hs: seq<Header>, h: Header)
    requires Entries(b, t, i, hs) && Entry(b, EntryAt(t.start, i + |hs|, t.entrySize), t.nameTable) == Accepted([h])
    ensures Entries(b, t, i, hs + [h])
    decreases |hs|
  {
    if hs == [] {
      assert [] + [h] == [h] && [h][1..] == [];
    } else {
      assert (hs + [h])[1..] == hs[1..] + [h];
      EntriesAppend(b, t, i + 1, hs[1..], h);
    }
  }

  lemma {:induction false} NodeHeadersSizes(nodes: seq<Node>, n: nat)
    requires n <= |nodes|
    ensures Sizes(NodeHeaders(nodes, n)) == DataOffset(nodes, n)
  {
    if n > 0 {
      NodeHeadersSizes(nodes, n - 1);
      SizesAppend(NodeHeaders(nodes, n - 1), NodeHeader(nodes, n - 1));
    }
  }

  lemma NodeEntry(b: seq<byte>, nodes: seq<Node>, i: nat, t: Table)
    requires i < |nodes| && ValidNodes(nodes) && |b| >= TotalSize(nodes) && WrittenUpTo(b, nodes, |nodes|)
      && t == WrittenTable(|nodes|)
    ensures Entry(b, EntryAt(t.start, i, t.entrySize), t.nameTable) == Accepted([NodeHeader(nodes, i)])
  {
    assert Written(b, nodes, i);
    SectionHeaderRead(b, nodes, i);
    WrittenEntryAt(|nodes|, i);
  }

  predicate EntryGood(b: seq<byte>, nodes: seq<Node>, i: nat, t: Table)
    requires i < |nodes|
  {
    Entry(b, EntryAt(t.start, i, t.entrySize), t.nameTable) == Accepted([NodeHeader(nodes, i)])
  }

  lemma {:induction false} NodeEntries(b: seq<byte>, nodes: seq<Node>, n: nat, t: Table)
    requires n <= |nodes| && forall i :: 0 <= i < |nodes| ==> EntryGood(b, nodes, i, t)
    ensures Entries(b, t, 0, NodeHeaders(nodes, n))
  {
    if n > 0 {
      NodeEntries(b, nodes, n - 1, t);
      assert EntryGood(b, nodes, n - 1, t);
      EntriesAppend(b, t, 0, NodeHeaders(nodes, n - 1), NodeHeader(nodes, n - 1));
    }
  }

  lemma WrittenEntryAt(n: nat, i: nat)
    ensures EntryAt(WrittenTable(n).start, i, WrittenTable(n).entrySize) == HeaderAt(i)
  {
  }

  lemma TableHeaderRead(b: seq<byte>, nodes: seq<Node>)
    requires |b| >= TotalSize(nodes)
    requires SectionHeader(b, HeaderAt(|nodes|), 0, STRING_TABLE_TYPE, 0, StringStart(nodes), NameOffset(nodes, |nodes|))
    ensures Entry(b, HeaderAt(|nodes|), Some(HeaderAt(|nodes|))) == Accepted([TableHeader(nodes)])
  {
    TableFits(b, nodes);
    ReadSectionHeader(b, HeaderAt(|nodes|), TableHeader(nodes));
    EntryRead(b, HeaderAt(|nodes|), Some(HeaderAt(|nodes|)), TableHeader(nodes));
  }

  lemma AllHeaders(nodes: seq<Node>)
    ensures var hs := NodeHeaders(nodes, |nodes|) + [TableHeader(nodes)];
      |hs| == |nodes| + 1 && HEADER_SIZE + Sizes(hs) + |hs| * SECTION_HEADER_SIZE == TotalSize(nodes)
  {
    NodeHeadersSizes(nodes, |nodes|);
    SizesAppend(NodeHeaders(nodes, |nodes|), TableHeader(nodes));
  }

  lemma TableEntry(b: seq<byte>, nodes: seq<Node>, kind: nat, machine: nat, flag: nat, t: Table)
    requires ValidNodes(nodes) && Resolved(b, nodes, kind, machine, flag) && t == WrittenTable(|nodes|)
    ensures Entry(b, EntryAt(t.start, |nodes|, t.entrySize), t.nameTable) == Accepted([TableHeader(nodes)])
  {
    TableHeaderRead(b, nodes);
    WrittenEntryAt(|nodes|, |nodes|);
  }

  lemma ResolvedEntries(b: seq<byte>, nodes: seq<Node>, kind: nat, machine: nat, flag: nat, t: Table)
    requires ValidNodes(nodes) && Resolved(b, nodes, kind, machine, flag) && t == WrittenTable(|nodes|)
    ensures Entries(b, t, 0, NodeHeaders(nodes, |nodes|) + [TableHeader(nodes)])
  {
    assert Entries(b, t, 0, NodeHeaders(nodes, |nodes|)) by {
      forall i | 0 <= i < |nodes| ensures EntryGood(b, nodes, i, t) { NodeEntry(b, nodes, i, t); }
      NodeEntries(b, nodes, |nodes|, t);
    }
    TableEntry(b, nodes, kind, machine, flag, t);
    EntriesAppend(b, t, 0, NodeHeaders(nodes, |nodes|), TableHeader(nodes));
  }

  lemma ValidateScans(b: seq<byte>, nodes: seq<Node>, kind: nat, machine: nat, flag: nat, t: Table)
    requires ValidNodes(nodes) && FitsFields(nodes) && Resolved(b, nodes, kind, machine, flag)
      && t == WrittenTable(|nodes|)
    ensures Validate(b) == Scan(b, t, 0, HEADER_SIZE, [])
  {
    HeaderRead(b, kind, machine, flag, |nodes|);
  }

  lemma ScanGood(b: seq<byte>, t: Table, hs: seq<Header>, total: nat)
    requires |hs| == t.sections && Entries(b, t, 0, hs) && HEADER_SIZE + Sizes(hs) + |hs| * t.entrySize == total
    ensures Scan(b, t, 0, HEADER_SIZE, []) == if |b| == total then Accepted(hs) else Rejected
  {
    ScanEntries(b, t, 0, HEADER_SIZE, [], hs);
    assert [] + hs == hs;
  }

  lemma ScanResolved(b: seq<byte>, nodes: seq<Node>, kind: nat, machine: nat, flag: nat, t: Table)
    requires ValidNodes(nodes) && Resolved(b, nodes, kind, machine, flag) && t == WrittenTable(|nodes|)
    ensures Scan(b, t, 0, HEADER_SIZE, [])
            == if |b| == TotalSize(nodes) then Accepted(NodeHeaders(nodes, |nodes|) + [TableHeader(nodes)]) else Rejected
  {
    ResolvedEntries(b, nodes, kind, machine, flag, t);
    AllHeaders(nodes);
    ScanGood(b, t, NodeHeaders(nodes, |nodes|) + [TableHeader(nodes)], TotalSize(nodes));
  }

  /**
   * A resolved binary is accepted exactly if it is no larger than needed, and then the headers are
   * those of the sections in order, and of the string table.
   */
  lemma WrittenIsReadIff(b: seq<byte>, nodes: seq<Node>, kind: nat, machine: nat, flag: nat)
    requires ValidNodes(nodes) && FitsFields(nodes) && Resolved(b, nodes, kind, machine, flag)
    ensures Validate(b) == if |b| == TotalSize(nodes) then Accepted(NodeHeaders(nodes,
      |nodes|) + [TableHeader(nodes)]) else Rejected
  {
    ValidateScans(b, nodes, kind, machine, flag, WrittenTable(|nodes|));
    ScanResolved(b, nodes, kind, machine, flag, WrittenTable(|nodes|));
  }

  lemma {:induction false} NodeHeadersAt(nodes: seq<Node>, n: nat, i: nat)
    requires i < n <= |nodes|
    ensures NodeHeaders(nodes, n)[i] == NodeHeader(nodes, i)
  {
    if i + 1 < n { NodeHeadersAt(nodes, n - 1, i); }
  }

  /** The characters of a NUL-terminated string at a place. */
  function CString(b: seq<byte>, at: nat): seq<byte>
    requires at <= |b|
    decreases |b| - at
  {
    if at == |b| || b[at] == 0 then [] else [b[at]] + CString(b, at + 1)
  }

  lemma {:induction false} CStringOf(b: seq<byte>, at: nat, name: seq<byte>)
    requires at + |name| + 1 <= |b| && b[at..at + |name| + 1] == name + [0] && 0 !in name
    ensures CString(b, at) == name
    decreases |name|
  {
    assert b[at] == b[at..at + |name| + 1][0];
    if name != [] {
      assert b[at] == name[0] && name[0] in name;
      assert b[at + 1..at + 1 + |name[1..]| + 1] == b[at..at + |name| + 1][1..] == name[1..] + [0];
      CStringOf(b, at + 1, name[1..]);
    }
  }

  /** The data a header points to, and the name it names in a string table. */
  predicate Gives(b: seq<byte>, table: Header, h: Header, n: Node)
    requires n.dataSize <= |n.data| + 1
  {
    && h.kind == n.kind && h.flag == n.flag && h.size == n.dataSize
    && h.offset + h.size <= |b| && b[h.offset..h.offset + h.size] == DataBytes(n)
    && table.offset + h.name <= |b| && CString(b, table.offset + h.name) == n.name
  }

  lemma WrittenGives(b: seq<byte>, nodes: seq<Node>, i: nat)
    requires i < |nodes| && ValidNodes(nodes) && Written(b, nodes, i)
    ensures ValidNode(nodes[i]) && Gives(b, TableHeader(nodes), NodeHeader(nodes, i), nodes[i])
  {
    assert ValidNode(nodes[i]);
    CStringOf(b, StringStart(nodes) + NameOffset(nodes, i), nodes[i].name);
  }

  /**
   * Each section comes back: its type, flags and size in its header, its data at the offset given
   * there, and its name in the string table the last header gives.
   */
  lemma SectionRoundTrip(b: seq<byte>, nodes: seq<Node>, kind: nat, machine: nat, flag: nat, i: nat)
    requires i < |nodes| && ValidNodes(nodes) && FitsFields(nodes) && Resolved(b, nodes, kind, machine, flag)
    requires |b| == TotalSize(nodes)
    ensures Validate(b).Accepted? && |Validate(b).headers| == |nodes| + 1 && ValidNode(nodes[i])
    ensures Gives(b, Validate(b).headers[|nodes|], Validate(b).headers[i], nodes[i])
  {
    WrittenIsReadIff(b, nodes, kind, machine, flag);
    NodeHeadersAt(nodes, |nodes|, i);
    assert Written(b, nodes, i);
    WrittenGives(b, nodes, i);
  }

  /**
   * Headers, data and names tile the binary: each piece starts where the one before it ends, and the
   * last ends with the binary.
   */
  lemma SectionsTile(b: seq<byte>, nodes: seq<Node>, kind: nat, machine: nat, flag: nat)
    requires nodes != [] && ValidNodes(nodes) && FitsFields(nodes) && Resolved(b, nodes, kind, machine, flag)
    requires |b| == TotalSize(nodes)
    ensures Validate(b).Accepted? && |Validate(b).headers| == |nodes| + 1
    ensures var hs, n := Validate(b).headers, |nodes|;
      && hs[0].offset == HEADER_SIZE + (n + 1) * SECTION_HEADER_SIZE
      && (forall i :: 0 <= i < n ==> hs[i].offset + hs[i].size == hs[i + 1].offset)
      && hs[n].offset + hs[n].size == |b|
      && hs[0].name == 0
      && (forall i :: 0 <= i < n - 1 ==> hs[i].name + |nodes[i].name| + 1 == hs[i + 1].name)
      && hs[n - 1].name + |nodes[n - 1].name| + 1 == hs[n].size
  {
    WrittenIsReadIff(b, nodes, kind, machine, flag);
    var hs, n := Validate(b).headers, |nodes|;
    forall i | 0 <= i < n ensures hs[i] == NodeHeader(nodes, i) { NodeHeadersAt(nodes, n, i); }
    assert hs[n] == TableHeader(nodes);
  }

  // ----- the bytes of a written binary ----------------------------------------------------

  /** The file header of a resolved binary, field by field. */
  lemma WrittenFileHeader(b: seq<byte>, nodes: seq<Node>, kind: nat, machine: nat, flag: nat)
    requires ValidNodes(nodes) && FitsFields(nodes) && Resolved(b, nodes, kind, machine, flag)
    ensures |b| >= 64 && b[0] == 0x7f && b[1] == 0x45 && b[2] == 0x4c && b[3] == 0x46 && b[4] == 2
    ensures Num(b, 5, 1) == 1
    ensures Num(b, 16, 2) == kind && Num(b, 18, 2) == machine && Num(b, 48, 4) == flag % 0x1_0000_0000
    ensures Num(b, 40, 8) == 64 && Num(b, 52, 2) == 64 && Num(b, 58, 2) == 64
    ensures Num(b, 60, 2) == |nodes| + 1 && Num(b, 62, 2) == |nodes|
  {
    IdentityBytes(b);
  }

  /** The header of section k, field by field. */
  predicate HeaderOf(b: seq<byte>, start: nat, es: nat, k: nat, h: Header) {
    var at := start + k * es;
    && at + 64 <= |b| && h.name == Num(b, at, 4) && h.kind == Num(b, at + 4, 4) && h.flag == Num(b, at + 8, 8)
    && h.offset == Num(b, at + 24, 8) && h.size == Num(b, at + 32, 8)
  }

  lemma HeaderOfRead(b: seq<byte>, k: nat, at: nat, h: Header, like: Header)
    requires at == 64 + k * 64 && at + 64 <= |b| && ReadHeader(b, at) == h && h == like
    ensures HeaderOf(b, 64, 64, k, like)
  {
  }

  lemma WrittenPlaces(nodes: seq<Node>, i: nat)
    requires i <= |nodes|
    ensures HeaderAt(i) == 64 + 64 * i && HeaderAt(i) + 64 <= TotalSize(nodes)
    ensures DataStart(nodes) == 64 + 64 * (|nodes| + 1)
  {
  }

  lemma NodeHeaderInPlace(b: seq<byte>, nodes: seq<Node>, i: nat)
    requires ValidNodes(nodes) && |b| >= TotalSize(nodes) && i < |nodes| && Written(b, nodes, i)
    ensures HeaderAt(i) + 64 <= |b| && ReadHeader(b, HeaderAt(i)) == NodeHeader(nodes, i)
  {
    WrittenPlaces(nodes, i);
    ReadSectionHeader(b, HeaderAt(i), NodeHeader(nodes, i));
  }

  /** The header of section i: its name and its data start where those before it end. */
  lemma WrittenSectionHeader(b: seq<byte>, nodes: seq<Node>, kind: nat, machine: nat, flag: nat, i: nat)
    requires ValidNodes(nodes) && Resolved(b, nodes, kind, machine, flag) && i < |nodes|
    ensures HeaderOf(b, 64, 64, i, Header(NameOffset(nodes, i), nodes[i].kind, nodes[i].flag,
                                          64 + 64 * (|nodes| + 1) + DataOffset(nodes, i), nodes[i].dataSize))
  {
    assert Written(b, nodes, i);
    NodeHeaderInPlace(b, nodes, i);
    WrittenPlaces(nodes, i);
    HeaderOfRead(b, i, HeaderAt(i), NodeHeader(nodes, i), Header(NameOffset(nodes, i), nodes[i].kind, nodes[i].flag,
      64 + 64 * (|nodes| + 1) + DataOffset(nodes, i), nodes[i].dataSize));
  }

  lemma TableHeaderInPlace(b: seq<byte>, nodes: seq<Node>)
    requires |b| >= TotalSize(nodes)
    requires SectionHeader(b, HeaderAt(|nodes|), 0, STRING_TABLE_TYPE, 0, StringStart(nodes), NameOffset(nodes, |nodes|))
    ensures HeaderAt(|nodes|) + 64 <= |b| && ReadHeader(b, HeaderAt(|nodes|)) == TableHeader(nodes)
  {
    WrittenPlaces(nodes, |nodes|);
    ReadSectionHeader(b, HeaderAt(|nodes|), TableHeader(nodes));
  }

  /** The header of the string table comes behind them. */
  lemma WrittenTableHeader(b: seq<byte>, nodes: seq<Node>, kind: nat, machine: nat, flag: nat)
    requires ValidNodes(nodes) && Resolved(b, nodes, kind, machine, flag)
    ensures HeaderOf(b, 64, 64, |nodes|, Header(0, 3, 0, 64 + 64 * (|nodes| + 1) + DataOffset(nodes, |nodes|),
                                                NameOffset(nodes, |nodes|)))
  {
    TableHeaderInPlace(b, nodes);
    TableHeaderIs(b, nodes);
  }

  lemma TableHeaderIs(b: seq<byte>, nodes: seq<Node>)
    requires HeaderAt(|nodes|) + 64 <= |b| && ReadHeader(b, HeaderAt(|nodes|)) == TableHeader(nodes)
    ensures HeaderOf(b, 64, 64, |nodes|, Header(0, 3, 0, 64 + 64 * (|nodes| + 1) + DataOffset(nodes, |nodes|),
                                                NameOffset(nodes, |nodes|)))
  {
    WrittenPlaces(nodes, |nodes|);
    HeaderOfRead(b, |nodes|, HeaderAt(|nodes|), TableHeader(nodes), Header(0, 3, 0,
      64 + 64 * (|nodes| + 1) + DataOffset(nodes, |nodes|), NameOffset(nodes, |nodes|)));
  }

  /** Byte k of the data of section i: what is asked for beyond the data is its closing NUL. */
  lemma WrittenData(b: seq<byte>, nodes: seq<Node>, kind: nat, machine: nat, flag: nat, i: nat, k: nat)
    requires ValidNodes(nodes) && Resolved(b, nodes, kind, machine, flag) && i < |nodes| && k < nodes[i].dataSize
    ensures var at := 64 + 64 * (|nodes| + 1) + DataOffset(nodes, i) + k;
      at < |b| && b[at] == if k < |nodes[i].data| then nodes[i].data[k] else 0
  {
    assert Written(b, nodes, i) && ValidNode(nodes[i]);
    var n, data := nodes[i], DataStart(nodes) + DataOffset(nodes, i);
    SliceAt(b, data, DataBytes(n), k);
  }

  /** Byte k of the name of section i in the string table, its closing NUL included. */
  lemma WrittenName(b: seq<byte>, nodes: seq<Node>, kind: nat, machine: nat, flag: nat, i: nat, k: nat)
    requires ValidNodes(nodes) && Resolved(b, nodes, kind, machine, flag) && i < |nodes| && k <= |nodes[i].name|
    ensures var at := 64 + 64 * (|nodes| + 1) + DataOffset(nodes, |nodes|) + NameOffset(nodes, i) + k;
      at < |b| && b[at] == if k < |nodes[i].name| then nodes[i].name[k] else 0
  {
    assert Written(b, nodes, i);
    SliceAt(b, StringStart(nodes) + NameOffset(nodes, i), NameBytes(nodes[i]), k);
  }

  lemma SliceAt(b: seq<byte>, at: nat, x: seq<byte>, k: nat)
    requires at + |x| <= |b| && b[at..at + |x|] == x && k < |x|
    ensures at + k < |b| && b[at + k] == x[k]
  {
    assert b[at + k] == b[at..at + |x|][k];
  }

  // ----- what acceptance says about data and names ----------------------------------------

  lemma {:induction false} ScanFits(b: seq<byte>, t: Table, i: nat, ourSize: nat, headers: seq<Header>)
    requires i <= t.sections && Scan(b, t, i, ourSize, headers).Accepted?
    requires forall h :: h in headers ==> HeaderFits(b, t.nameTable, h)
    ensures forall h :: h in Scan(b, t, i, ourSize, headers).headers ==> HeaderFits(b, t.nameTable, h)
    decreases t.sections - i
  {
    if i < t.sections {
      var e := Entry(b, EntryAt(t.start, i, t.entrySize), t.nameTable);
      ScanFits(b, t, i + 1, ourSize + e.headers[0].size + t.entrySize, headers + e.headers);
    }
  }

  /** All sections of an accepted binary have their data within it, and their names as far as they are checked. */
  lemma AcceptedDataWithin(b: seq<byte>, h: Header)
    requires Validate(b).Accepted? && h in Validate(b).headers
    ensures |b| >= 64 && h.offset + h.size <= |b|
    ensures NameTable(b).Some? ==> NameTable(b).value + h.name <= |b|
  {
    ScanFits(b, TableOf(b), 0, Num(b, 52, 2), []);
  }

  /** Section k of a table of es bytes an entry: its header lies in the file, and so do its data and its checked name. */
  predicate SectionWithin(b: seq<byte>, start: nat, es: nat, n: nat, names: nat, k: nat) {
    var at, table := start + k * es, start + names * es;
    && at + 64 <= |b| && Num(b, at + 24, 8) + Num(b, at + 32, 8) <= |b|
    && (names < n && table <= |b| ==> table + Num(b, at, 4) <= |b|)
  }

  /** The data sizes and entries of the sections from number k on; sections outside the file count nothing. */
  function SizesFrom(b: seq<byte>, start: nat, es: nat, n: nat, k: nat): nat
    requires k <= n
    decreases n - k
  {
    if k == n then 0
    else (if start + k * es + 64 <= |b| then Num(b, start + k * es + 32, 8) else 0) + es + SizesFrom(b, start, es, n, k + 1)
  }

  lemma EntryIff(b: seq<byte>, start: nat, es: nat, n: nat, names: nat, k: nat)
    requires |b| >= 64 && TableOf(b).sections == n && TableOf(b).start == start && TableOf(b).entrySize == es
    requires names == Num(b, 62, 2)
    ensures var e := Entry(b, start + k * es, TableOf(b).nameTable);
      && (e.Accepted? <==> SectionWithin(b, start, es, n, names, k))
      && (e.Accepted? ==> HeaderOf(b, start, es, k, e.headers[0]))
  {
  }

  ghost predicate AllWithin(b: seq<byte>, start: nat, es: nat, n: nat, names: nat, k: nat) {
    forall i :: k <= i < n ==> SectionWithin(b, start, es, n, names, i)
  }

  ghost predicate HeadersOf(b: seq<byte>, start: nat, es: nat, hs: seq<Header>) {
    forall i :: 0 <= i < |hs| ==> HeaderOf(b, start, es, i, hs[i])
  }

  /** What one entry adds to the size. */
  lemma EntryStep(b: seq<byte>, t: Table, names: nat, k: nat) returns (size: nat)
    requires |b| >= 64 && t == TableOf(b) && names == Num(b, 62, 2) && k < t.sections
    ensures var e := Entry(b, EntryAt(t.start, k, t.entrySize), t.nameTable);
      && (e.Accepted? <==> SectionWithin(b, t.start, t.entrySize, t.sections, names, k))
      && (e.Accepted? ==> size == e.headers[0].size)
      && (e.Accepted? ==>
           SizesFrom(b, t.start, t.entrySize, t.sections, k)
             == size + t.entrySize + SizesFrom(b, t.start, t.entrySize, t.sections, k + 1))
  {
    EntryIff(b, t.start, t.entrySize, t.sections, names, k);
    var e := Entry(b, EntryAt(t.start, k, t.entrySize), t.nameTable);
    size := if e.Accepted? then e.headers[0].size else 0;
  }

  lemma WithinNext(b: seq<byte>, start: nat, es: nat, n: nat, names: nat, k: nat)
    requires k < n
    ensures AllWithin(b, start, es, n, names, k)
      <==> SectionWithin(b, start, es, n, names, k) && AllWithin(b, start, es, n, names, k + 1)
  {
  }

  lemma {:induction false} ScanIff(b: seq<byte>, t: Table, names: nat, k: nat, ourSize: nat, headers: seq<Header>)
    requires |b| >= 64 && t == TableOf(b) && names == Num(b, 62, 2) && k <= t.sections
    ensures Scan(b, t, k, ourSize, headers).Accepted? <==>
      AllWithin(b, t.start, t.entrySize, t.sections, names, k)
      && ourSize + SizesFrom(b, t.start, t.entrySize, t.sections, k) == |b|
    decreases t.sections - k
  {
    if k < t.sections {
      ScanNext(b, t, k, ourSize, headers);
      var size := EntryStep(b, t, names, k);
      WithinNext(b, t.start, t.entrySize, t.sections, names, k);
      var e := Entry(b, EntryAt(t.start, k, t.entrySize), t.nameTable);
      if e.Accepted? {
        ScanIff(b, t, names, k + 1, ourSize + size + t.entrySize, headers + e.headers);
      }
    }
  }

  lemma {:induction false} ScanHeadersAre(b: seq<byte>, t: Table, k: nat, ourSize: nat, headers: seq<Header>)
    requires |b| >= 64 && t == TableOf(b) && k == |headers| <= t.sections && HeadersOf(b, t.start, t.entrySize, headers)
    requires Scan(b, t, k, ourSize, headers).Accepted?
    ensures var hs := Scan(b, t, k, ourSize, headers).headers; |hs| == t.sections && HeadersOf(b, t.start, t.entrySize, hs)
    decreases t.sections - k
  {
    if k < t.sections {
      ScanNext(b, t, k, ourSize, headers);
      EntryIff(b, t.start, t.entrySize, t.sections, Num(b, 62, 2), k);
      var e := Entry(b, t.start + k * t.entrySize, t.nameTable);
      ScanHeadersAre(b, t, k + 1, ourSize + e.headers[0].size + t.entrySize, headers + e.headers);
    }
  }

  /**
   * A binary is accepted exactly if its first bytes are those of a 64-bit ELF file, every section
   * lies within it, and the file header, the section headers and the data make up its size.
   */
  lemma AcceptedIff(b: seq<byte>)
    ensures Validate(b).Accepted? <==>
      |b| >= 64 && b[..5] == [0x7f, 0x45, 0x4c, 0x46, 2]
      && Num(b, 52, 2) + SizesFrom(b, Num(b, 40, 8), Num(b, 58, 2), Num(b, 60, 2), 0) == |b|
      && forall k :: 0 <= k < Num(b, 60, 2) ==> SectionWithin(b, Num(b, 40, 8), Num(b, 58, 2), Num(b, 60, 2), Num(b, 62, 2), k)
  {
    if |b| >= 64 {
      assert b[..5] == [b[0], b[1], b[2], b[3], b[4]];
      ScanIff(b, TableOf(b), Num(b, 62, 2), 0, Num(b, 52, 2), []);
    }
  }

  /** An accepted binary gives the headers of all sections in order, field by field. */
  lemma AcceptedHeaders(b: seq<byte>)
    requires Validate(b).Accepted?
    ensures |b| >= 64 && |Validate(b).headers| == Num(b, 60, 2)
    ensures forall k :: 0 <= k < Num(b, 60, 2) ==> HeaderOf(b, Num(b, 40, 8), Num(b, 58, 2), k, Validate(b).headers[k])
  {
    ScanHeadersAre(b, TableOf(b), 0, Num(b, 52, 2), []);
  }

  /** If a name passes the check, made at the header of the string table, it lies within the binary. */
  predicate NameWithin(b: seq<byte>, at: nat, name: nat)
    requires at + SECTION_HEADER_SIZE <= |b|
  {
    at + name <= |b| ==> ReadHeader(b, at).offset + name <= |b|
  }

  /**
   * The check keeps names within the binary exactly if the data of the string table does not come
   * after its header, or is too far from the end of the binary to be left by a 32-bit name.
   */
  lemma NamesWithinIff(b: seq<byte>, at: nat)
    requires at + SECTION_HEADER_SIZE <= |b|
    ensures (forall name: nat :: name < TWO_32 ==> NameWithin(b, at, name)) <==>
      ReadHeader(b, at).offset <= at || ReadHeader(b, at).offset + (TWO_32 - 1) <= |b|
  {
    var name := Min(|b| - at, TWO_32 - 1);
    assert NameWithin(b, at, name) <==> ReadHeader(b, at).offset + name <= |b|;
  }

  lemma AcceptedNamesWithin(b: seq<byte>, h: Header, at: nat)
    requires Validate(b).Accepted? && h in Validate(b).headers && h.name < TWO_32
    requires |b| >= HEADER_SIZE && NameTable(b) == Some(at) && at + SECTION_HEADER_SIZE <= |b|
    requires ReadHeader(b, at).offset <= at || ReadHeader(b, at).offset + (TWO_32 - 1) <= |b|
    ensures ReadHeader(b, at).offset + h.name <= |b|
  {
    AcceptedDataWithin(b, h);
    NamesWithinIff(b, at);
    assert NameWithin(b, at, h.name);
  }

  /** The bytes of a file with one section, its string table: 8 bytes behind the header, and a name 72 bytes on. */
  function ForeignByte(i: nat): byte
  {
    match i
    case 0 => 0x7f case 1 => 0x45 case 2 => 0x4c case 3 => 0x46 case 4 => CLASS_64
    case 40 => 64 case 52 => 64 case 58 => 64 case 60 => 1
    case 64 => 72 case 68 => 3 case 88 => 128 case 96 => 8
    case _ => 0
  }

  function ForeignBinary(): (b: seq<byte>)
    ensures |b| == 136 && forall i :: 0 <= i < 136 ==> b[i] == ForeignByte(i)
  {
    seq(136, (i: nat) => ForeignByte(i))
  }

  lemma {:induction false} ZeroNum(b: seq<byte>)
    requires forall i :: 0 <= i < |b| ==> b[i] == 0
    ensures FromLE(b) == 0
  {
    if b != [] { ZeroNum(b[1..]); }
  }

  lemma FirstByteNum(b: seq<byte>, at: nat, n: nat)
    requires n > 0 && at + n <= |b| && forall i :: at < i < at + n ==> b[i] == 0
    ensures Num(b, at, n) == b[at]
  {
    ZeroNum(b[at..at + n][1..]);
  }

  lemma ForeignTable()
    ensures Num(ForeignBinary(), 40, 8) == 64 && Num(ForeignBinary(), 52, 2) == 64 && Num(ForeignBinary(), 58, 2) == 64
  {
    var b := ForeignBinary();
    FirstByteNum(b, 40, 8);
    FirstByteNum(b, 52, 2);
    FirstByteNum(b, 58, 2);
  }

  lemma ForeignCounts()
    ensures Num(ForeignBinary(), 60, 2) == 1 && Num(ForeignBinary(), 62, 2) == 0
  {
    var b := ForeignBinary();
    FirstByteNum(b, 60, 2);
    FirstByteNum(b, 62, 2);
  }

  lemma ForeignFields()
    ensures GoodIdentity(ForeignBinary()) && TableOf(ForeignBinary()) == Table(64, 64, 1, Some(64))
    ensures Num(ForeignBinary(), 52, 2) == 64
  {
    ForeignTable();
    ForeignCounts();
  }

  lemma ForeignKind()
    ensures Num(ForeignBinary(), 64, 4) == 72 && Num(ForeignBinary(), 68, 4) == 3 && Num(ForeignBinary(), 72, 8) == 0
  {
    var b := ForeignBinary();
    FirstByteNum(b, 64, 4);
    FirstByteNum(b, 68, 4);
    FirstByteNum(b, 72, 8);
  }

  lemma ForeignPlace()
    ensures Num(ForeignBinary(), 88, 8) == 128 && Num(ForeignBinary(), 96, 8) == 8
  {
    var b := ForeignBinary();
    FirstByteNum(b, 88, 8);
    FirstByteNum(b, 96, 8);
  }

  /** A file of 136 bytes is accepted although the name of its section lies at byte 200. */
  lemma NameOutside()
    ensures Validate(ForeignBinary()) == Accepted([Header(72, 3, 0, 128, 8)])
    ensures NameTable(ForeignBinary()) == Some(64) && ReadHeader(ForeignBinary(), 64).offset + 72 == 200 > |ForeignBinary()|
  {
    ForeignFields();
    ForeignKind();
    ForeignPlace();
    OneSection(ForeignBinary(), Header(72, 3, 0, 128, 8));
  }

  lemma OneSection(b: seq<byte>, h: Header)
    requires |b| == 136 && GoodIdentity(b) && Num(b, 52, 2) == 64 && TableOf(b) == Table(64, 64, 1, Some(64))
    requires ReadHeader(b, 64) == h && h.size == 8 && HeaderFits(b, Some(64), h)
    ensures Validate(b) == Accepted([h])
  {
    var none: seq<Header> := [];
    ScanNext(b, TableOf(b), 0, 64, none);
    assert none + [h] == [h];
  }

  /** In the files of the writer the table's data always comes after its header. */
  lemma WrittenTableComesLast(nodes: seq<Node>)
    ensures HeaderAt(|nodes|) + SECTION_HEADER_SIZE <= TableHeader(nodes).offset
  {
  }
}

/** The ELF writer: a queue of sections, resolved into one binary with three cursors. */
module ElfWriter {
  import opened Arithmetic
  import opened Bytes

  const HEADER_SIZE: nat := 64
  const SECTION_HEADER_SIZE: nat := 64
  const STRING_TABLE_TYPE: nat := 3
  const MAGIC: seq<byte> := [0x7f, 0x45, 0x4c, 0x46]
  const CLASS_64: byte := 2

  /** A section to write; data sizes and types are 32-bit, flags 64-bit. */
  datatype Node = Node(kind: nat, flag: nat, name: seq<byte>, data: seq<byte>, dataSize: nat)

  /** What the writer may be given: fields in range, and no more bytes asked for than the data with its final NUL. */
  predicate ValidNode(n: Node) {
    n.kind < TWO_32 && n.flag < TWO_64 && n.dataSize < TWO_32 && n.dataSize <= |n.data| + 1 && 0 !in n.name
  }

  function DataBytes(n: Node): (b: seq<byte>)
    requires n.dataSize <= |n.data| + 1
    ensures |b| == n.dataSize
  {
    (n.data + [0])[..n.dataSize]
  }

  function NameBytes(n: Node): seq<byte> { n.name + [0] }

  // ----- bytes in place -------------------------------------------------------------------

  function Put(b: seq<byte>, at: nat, x: seq<byte>): (r: seq<byte>)
    requires at + |x| <= |b|
    ensures |r| == |b|
  {
    b[..at] + x + b[at + |x|..]
  }

  predicate SameOutside(a: seq<byte>, b: seq<byte>, lo: nat, hi: nat) {
    |a| == |b| && lo <= hi <= |a| && a[..lo] == b[..lo] && a[hi..] == b[hi..]
  }

  lemma PutIs(b: seq<byte>, at: nat, x: seq<byte>)
    requires at + |x| <= |b|
    ensures Put(b, at, x)[at..at + |x|] == x && SameOutside(b, Put(b, at, x), at, at + |x|)
  {
  }

  lemma SliceOfTail(a: seq<byte>, n: nat, from: nat, to: nat)
    requires n <= from <= to <= |a|
    ensures a[from..to] == a[n..][from - n..to - n]
  {
  }

  /** What lies left or right of the changed bytes stays. */
  lemma Kept(a: seq<byte>, b: seq<byte>, lo: nat, hi: nat, from: nat, to: nat)
    requires SameOutside(a, b, lo, hi) && from <= to <= |a| && (to <= lo || hi <= from)
    ensures a[from..to] == b[from..to]
  {
    if to <= lo {
      assert a[from..to] == a[..lo][from..to] && b[from..to] == b[..lo][from..to];
    } else {
      SliceOfTail(a, hi, from, to);
      SliceOfTail(b, hi, from, to);
    }
  }

  lemma SameOutsideTwice(a: seq<byte>, b: seq<byte>, c: seq<byte>, lo: nat, hi: nat, from: nat, to: nat)
    requires SameOutside(a, b, lo, hi) && SameOutside(b, c, from, to) && lo <= from && to <= hi
    ensures SameOutside(a, c, lo, hi)
  {
    Kept(b, c, from, to, 0, lo);
    Kept(b, c, from, to, hi, |b|);
    assert a[..lo] == a[0..lo] && b[..lo] == b[0..lo] && c[..lo] == c[0..lo];
    assert b[hi..] == b[hi..|b|] && c[hi..] == c[hi..|c|];
  }

  /** The little-endian number of n bytes at a place. */
  function Num(b: seq<byte>, at: nat, n: nat): nat
    requires at + n <= |b|
  {
    FromLE(b[at..at + n])
  }

  predicate Holds(b: seq<byte>, at: nat, n: nat, v: nat) {
    at + n <= |b| && Num(b, at, n) == v
  }

  lemma PutNum(b: seq<byte>, at: nat, v: nat, n: nat)
    requires at + n <= |b| && v < Pow256(n)
    ensures Holds(Put(b, at, LE(v, n)), at, n, v) && SameOutside(b, Put(b, at, LE(v, n)), at, at + n)
  {
    PutIs(b, at, LE(v, n));
    FromLEofLE(v, n);
  }

  // ----- the layout -----------------------------------------------------------------------

  /** Where the data of node i starts, from the start of all data. */
  function DataOffset(nodes: seq<Node>, i: nat): nat
    requires i <= |nodes|
  {
    if i == 0 then 0 else DataOffset(nodes, i - 1) + nodes[i - 1].dataSize
  }

  /** Where the name of node i starts in the string table. */
  function NameOffset(nodes: seq<Node>, i: nat): nat
    requires i <= |nodes|
  {
    if i == 0 then 0 else NameOffset(nodes, i - 1) + |nodes[i - 1].name| + 1
  }

  lemma {:induction false} OffsetsGrow(nodes: seq<Node>, i: nat, j: nat)
    requires i < j <= |nodes|
    ensures DataOffset(nodes, i) + nodes[i].dataSize <= DataOffset(nodes, j)
    ensures NameOffset(nodes, i) + |nodes[i].name| + 1 <= NameOffset(nodes, j)
    decreases j
  {
    if i + 1 < j { OffsetsGrow(nodes, i, j - 1); }
  }

  lemma {:induction false} OffsetsOfPrefix(a: seq<Node>, n: Node, i: nat)
    requires i <= |a|
    ensures DataOffset(a + [n], i) == DataOffset(a, i) && NameOffset(a + [n], i) == NameOffset(a, i)
  {
    if i > 0 { OffsetsOfPrefix(a, n, i - 1); }
  }

  function HeaderAt(i: nat): nat { HEADER_SIZE + i * SECTION_HEADER_SIZE }

  function DataStart(nodes: seq<Node>): nat { HeaderAt(|nodes| + 1) }

  function StringStart(nodes: seq<Node>): nat { DataStart(nodes) + DataOffset(nodes, |nodes|) }

  /** getTotalBinarySize. */
  function TotalSize(nodes: seq<Node>): nat { StringStart(nodes) + NameOffset(nodes, |nodes|) }

  /** Counts and sizes fit the fields that hold them. */
  predicate FitsFields(nodes: seq<Node>) {
    |nodes| + 1 < TWO_16 && DataOffset(nodes, |nodes|) < TWO_32 && NameOffset(nodes, |nodes|) < TWO_32
  }

  predicate ValidNodes(nodes: seq<Node>) {
    forall i :: 0 <= i < |nodes| ==> ValidNode(nodes[i])
  }

  /** The five fields of a section header that are written. */
  predicate SectionHeader(b: seq<byte>, at: nat, name: nat, kind: nat, flag: nat, offset: nat, size: nat) {
    && Holds(b, at, 4, name) && Holds(b, at + 4, 4, kind) && Holds(b, at + 8, 8, flag)
    && Holds(b, at + 24, 8, offset) && Holds(b, at + 32, 8, size)
  }

  predicate Written(b: seq<byte>, nodes: seq<Node>, i: nat)
    requires i < |nodes| && ValidNodes(nodes)
  {
    var n, data, name := nodes[i], DataStart(nodes) + DataOffset(nodes, i), StringStart(nodes) + NameOffset(nodes, i);
    && SectionHeader(b, HeaderAt(i), NameOffset(nodes, i), n.kind, n.flag, data, n.dataSize)
    && data + n.dataSize <= |b| && b[data..data + n.dataSize] == DataBytes(n)
    && name + |n.name| + 1 <= |b| && b[name..name + |n.name| + 1] == NameBytes(n)
  }

  lemma HeldStill(a: seq<byte>, b: seq<byte>, lo: nat, hi: nat, at: nat, n: nat, v: nat)
    requires SameOutside(a, b, lo, hi) && Holds(a, at, n, v) && (at + n <= lo || hi <= at)
    ensures Holds(b, at, n, v)
  {
    Kept(a, b, lo, hi, at, at + n);
  }

  lemma HeaderStill(a: seq<byte>, b: seq<byte>, lo: nat, hi: nat, at: nat, name: nat, kind: nat, flag: nat,
      offset: nat, size: nat)
    requires SameOutside(a, b, lo, hi) && SectionHeader(a, at, name, kind, flag, offset, size)
    requires at + SECTION_HEADER_SIZE <= lo || hi <= at
    ensures SectionHeader(b, at, name, kind, flag, offset, size)
  {
    HeldStill(a, b, lo, hi, at, 4, name);
    HeldStill(a, b, lo, hi, at + 4, 4, kind);
    HeldStill(a, b, lo, hi, at + 8, 8, flag);
    HeldStill(a, b, lo, hi, at + 24, 8, offset);
    HeldStill(a, b, lo, hi, at + 32, 8, size);
  }

  /** A change outside the header, data and name of a section leaves it written. */
  lemma WrittenStill(a: seq<byte>, b: seq<byte>, lo: nat, hi: nat, nodes: seq<Node>, i: nat)
    requires i < |nodes| && ValidNodes(nodes) && Written(a, nodes, i) && SameOutside(a, b, lo, hi)
    requires HeaderAt(i + 1) <= lo || hi <= HeaderAt(i)
    requires var data := DataStart(nodes) + DataOffset(nodes, i); data + nodes[i].dataSize <= lo || hi <= data
    requires var name := StringStart(nodes) + NameOffset(nodes, i); name + |nodes[i].name| + 1 <= lo || hi <= name
    ensures Written(b, nodes, i)
  {
    var n, data, name := nodes[i], DataStart(nodes) + DataOffset(nodes, i), StringStart(nodes) + NameOffset(nodes, i);
    HeaderStill(a, b, lo, hi, HeaderAt(i), NameOffset(nodes, i), n.kind, n.flag, data, n.dataSize);
    Kept(a, b, lo, hi, data, data + n.dataSize);
    Kept(a, b, lo, hi, name, name + |n.name| + 1);
  }

  // ----- one section written ---------------------------------------------------------------

  lemma RegionsApart(nodes: seq<Node>, i: nat, k: nat)
    requires i < k < |nodes|
    ensures HeaderAt(i + 1) <= HeaderAt(k) && HeaderAt(k + 1) <= DataStart(nodes)
    ensures DataOffset(nodes, i) + nodes[i].dataSize <= DataOffset(nodes, k)
    ensures NameOffset(nodes, i) + |nodes[i].name| + 1 <= NameOffset(nodes, k)
    ensures DataStart(nodes) + DataOffset(nodes, i) + nodes[i].dataSize <= StringStart(nodes)
  {
    OffsetsGrow(nodes, i, k);
    OffsetsGrow(nodes, i, |nodes|);
  }

  lemma OwnRegion(nodes: seq<Node>, k: nat)
    requires k < |nodes|
    ensures HeaderAt(k + 1) <= DataStart(nodes)
    ensures DataStart(nodes) + DataOffset(nodes, k) + nodes[k].dataSize <= StringStart(nodes)
    ensures StringStart(nodes) + NameOffset(nodes, k) + |nodes[k].name| + 1 <= TotalSize(nodes)
  {
    OffsetsGrow(nodes, k, |nodes|);
  }

  /** The bytes that step k of the writer changes: a header, a piece of data, or a name. */
  predicate RegionOf(nodes: seq<Node>, k: nat, lo: nat, hi: nat)
    requires k < |nodes|
  {
    var data, name := DataStart(nodes) + DataOffset(nodes, k), StringStart(nodes) + NameOffset(nodes, k);
    || (lo == HeaderAt(k) && hi == HeaderAt(k + 1))
    || (lo == data && hi == data + nodes[k].dataSize)
    || (lo == name && hi == name + |nodes[k].name| + 1)
  }

  predicate WrittenUpTo(b: seq<byte>, nodes: seq<Node>, k: nat)
    requires k <= |nodes| && ValidNodes(nodes)
  {
    forall i :: 0 <= i < k ==> Written(b, nodes, i)
  }

  lemma EarlierStill(a: seq<byte>, b: seq<byte>, lo: nat, hi: nat, nodes: seq<Node>, k: nat)
    requires k < |nodes| && ValidNodes(nodes) && WrittenUpTo(a, nodes, k) && SameOutside(a, b, lo, hi)
      && RegionOf(nodes, k, lo, hi)
    ensures WrittenUpTo(b, nodes, k)
  {
    OwnRegion(nodes, k);
    forall i | 0 <= i < k ensures Written(b, nodes, i) {
      RegionsApart(nodes, i, k);
      assert Written(a, nodes, i);
      WrittenStill(a, b, lo, hi, nodes, i);
    }
  }

  // ----- the writer -----------------------------------------------------------------------

  /** Assign a number in place. */
  method PutField(b: seq<byte>, at: nat, v: nat, n: nat) returns (r: seq<byte>)
    requires at + n <= |b| && v < Pow256(n)
    ensures Holds(r, at, n, v) && SameOutside(b, r, at, at + n)
  {
    r := Put(b, at, LE(v, n));
    PutNum(b, at, v, n);
  }

  method PutSectionHeader(b: seq<byte>, at: nat, name: nat, kind: nat, flag: nat, offset: nat,
      size: nat) returns (r: seq<byte>)
    requires at + SECTION_HEADER_SIZE <= |b|
    requires name < TWO_32 && kind < TWO_32 && flag < TWO_64 && offset < TWO_64 && size < TWO_64
    ensures SectionHeader(r, at, name, kind, flag, offset, size) && SameOutside(b, r, at, at + SECTION_HEADER_SIZE)
  {
    Pow256Sizes();
    var b1 := PutField(b, at + 4, kind, 4);
    var b2 := PutField(b1, at + 8, flag, 8);
    HeldStill(b1, b2, at + 8, at + 16, at + 4, 4, kind);
    var b3 := PutField(b2, at + 32, size, 8);
    HeldStill(b2, b3, at + 32, at + 40, at + 4, 4, kind);
    HeldStill(b2, b3, at + 32, at + 40, at + 8, 8, flag);
    var b4 := PutField(b3, at + 24, offset, 8);
    HeldStill(b3, b4, at + 24, at + 32, at + 4, 4, kind);
    HeldStill(b3, b4, at + 24, at + 32, at + 8, 8, flag);
    HeldStill(b3, b4, at + 24, at + 32, at + 32, 8, size);
    r := PutField(b4, at, name, 4);
    HeldStill(b4, r, at, at + 4, at + 4, 4, kind);
    HeldStill(b4, r, at, at + 4, at + 8, 8, flag);
    HeldStill(b4, r, at, at + 4, at + 32, 8, size);
    HeldStill(b4, r, at, at + 4, at + 24, 8, offset);
    WithinHeader(b, b1, b2, b3, b4, r, at);
  }

  lemma WithinHeader(b: seq<byte>, b1: seq<byte>, b2: seq<byte>, b3: seq<byte>, b4: seq<byte>, r: seq<byte>, at: nat)
    requires at + SECTION_HEADER_SIZE <= |b|
    requires SameOutside(b, b1, at + 4, at + 8) && SameOutside(b1, b2, at + 8, at + 16)
      && SameOutside(b2, b3, at + 32, at + 40)
    requires SameOutside(b3, b4, at + 24, at + 32) && SameOutside(b4, r, at, at + 4)
    ensures SameOutside(b, r, at, at + SECTION_HEADER_SIZE)
  {
    var hi := at + SECTION_HEADER_SIZE;
    assert SameOutside(b, b, at, hi);
    SameOutsideTwice(b, b, b1, at, hi, at + 4, at + 8);
    SameOutsideTwice(b, b1, b2, at, hi, at + 8, at + 16);
    SameOutsideTwice(b, b2, b3, at, hi, at + 32, at + 40);
    SameOutsideTwice(b, b3, b4, at, hi, at + 24, at + 32);
    SameOutsideTwice(b, b4, r, at, hi, at, at + 4);
  }

  method PutBytes(b: seq<byte>, at: nat, x: seq<byte>) returns (r: seq<byte>)
    requires at + |x| <= |b|
    ensures SameOutside(b, r, at, at + |x|) && r[at..at + |x|] == x
  {
    r := Put(b, at, x);
    PutIs(b, at, x);
  }

  // ----- the header of the file -----------------------------------------------------------

  /** A number stored at a place. */
  datatype Stored = Stored(at: nat, n: nat, v: nat)

  predicate AllHeld(b: seq<byte>, done: seq<Stored>) {
    forall i :: 0 <= i < |done| ==> Holds(b, done[i].at, done[i].n, done[i].v)
  }

  predicate Apart(done: seq<Stored>, at: nat, n: nat) {
    forall i :: 0 <= i < |done| ==> done[i].at + done[i].n <= at || at + n <= done[i].at
  }

  /** Assign one more number beside those assigned before. */
  method Assign(b: seq<byte>, ghost done: seq<Stored>, at: nat, v: nat, n: nat) returns (r: seq<byte>)
    requires HEADER_SIZE <= |b| && at + n <= HEADER_SIZE && v < Pow256(n) && AllHeld(b, done) && Apart(done, at, n)
    ensures AllHeld(r, done + [Stored(at, n, v)]) && SameOutside(b, r, 0, HEADER_SIZE)
  {
    r := PutField(b, at, v, n);
    forall i | 0 <= i < |done| ensures Holds(r, done[i].at, done[i].n, done[i].v) {
      HeldStill(b, r, at, at + n, done[i].at, done[i].n, done[i].v);
    }
    assert SameOutside(b, b, 0, HEADER_SIZE);
    SameOutsideTwice(b, b, r, 0, HEADER_SIZE, at, at + n);
  }

  /** Identity, and the fields of the header that are not left as they are. */
  predicate ElfHeader(b: seq<byte>, kind: nat, machine: nat, flag: nat, numSections: nat)
    requires numSections > 0
  {
    && Holds(b, 0, 4, FromLE(MAGIC)) && Holds(b, 4, 1, 2) && Holds(b, 5, 1, 1)
    && Holds(b, 16, 2, kind) && Holds(b, 18, 2, machine) && Holds(b, 48, 4, Wrap32(flag))
    && Holds(b, 52, 2, HEADER_SIZE) && Holds(b, 58, 2, SECTION_HEADER_SIZE)
    && Holds(b, 60, 2, numSections % TWO_16) && Holds(b, 40, 8, HEADER_SIZE)
        && Holds(b, 62, 2, (numSections - 1) % TWO_16)
  }

  lemma MagicNumber()
    ensures FromLE(MAGIC) == 0x464c_457f < Pow256(4)
  {
    LEofFromLE(MAGIC);
    assert MAGIC[1..] == [0x45, 0x4c, 0x46] && MAGIC[1..][1..] == [0x4c, 0x46] && [0x4c, 0x46][1..] == [0x46]
      && [0x46][1..] == [];
    assert FromLE([0x46]) == 0x46 + 256 * FromLE([]);
  }

  method PatchIdentity(b: seq<byte>) returns (r: seq<byte>, ghost d: seq<Stored>)
    requires HEADER_SIZE <= |b|
    ensures d == [Stored(0, 4, 0x464c_457f), Stored(4, 1, 2), Stored(5, 1, 1)]
    ensures AllHeld(r, d) && SameOutside(b, r, 0, HEADER_SIZE)
  {
    Pow256Sizes();
    d := [];
    r := Assign(b, d, 0, 0x464c_457f, 4);
    d := d + [Stored(0, 4, 0x464c_457f)];
    r := AssignNext(b, r, d, 4, 2, 1);
    d := d + [Stored(4, 1, 2)];
    r := AssignNext(b, r, d, 5, 1, 1);
    d := d + [Stored(5, 1, 1)];
  }

  method PatchKind(b: seq<byte>, before: seq<byte>, ghost identity: seq<Stored>, kind: nat, machine: nat, flag: nat)
    returns (r: seq<byte>, ghost d: seq<Stored>)
    requires HEADER_SIZE <= |before| && kind < TWO_16 && machine < TWO_16 && SameOutside(b, before, 0, HEADER_SIZE)
    requires AllHeld(before, identity) && forall i :: 0 <= i < |identity| ==> identity[i].at + identity[i].n <= 16
    ensures d == identity + [Stored(16, 2, kind), Stored(18, 2, machine), Stored(48, 4, Wrap32(flag))]
    ensures AllHeld(r, d) && SameOutside(b, r, 0, HEADER_SIZE)
  {
    Pow256Sizes();
    d := identity;
    r := AssignNext(b, before, d, 16, kind, 2);
    d := d + [Stored(16, 2, kind)];
    r := AssignNext(b, r, d, 18, machine, 2);
    d := d + [Stored(18, 2, machine)];
    r := AssignNext(b, r, d, 48, Wrap32(flag), 4);
    d := d + [Stored(48, 4, Wrap32(flag))];
  }

  method PatchSizes(b: seq<byte>, before: seq<byte>, ghost kinds: seq<Stored>, numSections: nat)
    returns (r: seq<byte>, ghost d: seq<Stored>)
    requires HEADER_SIZE <= |before| && numSections > 0 && SameOutside(b, before, 0, HEADER_SIZE)
      && AllHeld(before, kinds)
    requires forall i :: 0 <= i < |kinds| ==> kinds[i].at + kinds[i].n <= 40 || (kinds[i].at == 48 && kinds[i].n == 4)
    ensures d == kinds + [Stored(52, 2, HEADER_SIZE), Stored(58, 2, SECTION_HEADER_SIZE), Stored(60, 2,
      numSections % TWO_16),
                          Stored(40, 8, HEADER_SIZE), Stored(62, 2, (numSections - 1) % TWO_16)]
    ensures AllHeld(r, d) && SameOutside(b, r, 0, HEADER_SIZE)
  {
    Pow256Sizes();
    d := kinds;
    r := AssignNext(b, before, d, 52, HEADER_SIZE, 2);
    d := d + [Stored(52, 2, HEADER_SIZE)];
    r := AssignNext(b, r, d, 58, SECTION_HEADER_SIZE, 2);
    d := d + [Stored(58, 2, SECTION_HEADER_SIZE)];
    r := AssignNext(b, r, d, 60, numSections % TWO_16, 2);
    d := d + [Stored(60, 2, numSections % TWO_16)];
    r := AssignNext(b, r, d, 40, HEADER_SIZE, 8);
    d := d + [Stored(40, 8, HEADER_SIZE)];
    r := AssignNext(b, r, d, 62, (numSections - 1) % TWO_16, 2);
    d := d + [Stored(62, 2, (numSections - 1) % TWO_16)];
  }

  method PatchElfHeader(b: seq<byte>, kind: nat, machine: nat, flag: nat, numSections: nat) returns (r: seq<byte>)
    requires HEADER_SIZE <= |b| && kind < TWO_16 && machine < TWO_16 && numSections > 0
    ensures ElfHeader(r, kind, machine, flag, numSections) && SameOutside(b, r, 0, HEADER_SIZE)
  {
    ghost var d;
    r, d := PatchIdentity(b);
    r, d := PatchKind(b, r, d, kind, machine, flag);
    r, d := PatchSizes(b, r, d, numSections);
    HeaderFromStored(r, d, kind, machine, flag, numSections);
  }

  method AssignNext(b: seq<byte>, before: seq<byte>, ghost done: seq<Stored>, at: nat, v: nat,
      n: nat) returns (r: seq<byte>)
    requires HEADER_SIZE <= |before| && at + n <= HEADER_SIZE && v < Pow256(n) && AllHeld(before, done)
      && Apart(done, at, n)
    requires SameOutside(b, before, 0, HEADER_SIZE)
    ensures AllHeld(r, done + [Stored(at, n, v)]) && SameOutside(b, r, 0, HEADER_SIZE)
  {
    r := Assign(before, done, at, v, n);
    SameOutsideTwice(b, before, r, 0, HEADER_SIZE, 0, HEADER_SIZE);
  }

  lemma HeaderFromStored(b: seq<byte>, d: seq<Stored>, kind: nat, machine: nat, flag: nat, numSections: nat)
    requires numSections > 0 && AllHeld(b, d)
    requires d == [Stored(0, 4, 0x464c_457f), Stored(4, 1, 2), Stored(5, 1, 1), Stored(16, 2, kind), Stored(18, 2,
      machine),
                   Stored(48, 4, Wrap32(flag)), Stored(52, 2, HEADER_SIZE), Stored(58, 2, SECTION_HEADER_SIZE),
                   Stored(60, 2, numSections % TWO_16), Stored(40, 8, HEADER_SIZE), Stored(62, 2,
                       (numSections - 1) % TWO_16)]
    ensures ElfHeader(b, kind, machine, flag, numSections)
  {
    MagicNumber();
    assert Holds(b, d[0].at, d[0].n, d[0].v) && Holds(b, d[1].at, d[1].n, d[1].v) && Holds(b, d[2].at, d[2].n, d[2].v);
    assert Holds(b, d[3].at, d[3].n, d[3].v) && Holds(b, d[4].at, d[4].n, d[4].v) && Holds(b, d[5].at, d[5].n, d[5].v);
    assert Holds(b, d[6].at, d[6].n, d[6].v) && Holds(b, d[7].at, d[7].n, d[7].v) && Holds(b, d[8].at, d[8].n, d[8].v);
    assert Holds(b, d[9].at, d[9].n, d[9].v) && Holds(b, d[10].at, d[10].n, d[10].v);
  }

  // ----- the writer -----------------------------------------------------------------------

  function EmptyNode(): Node { Node(0, 0, [], [], 0) }

  /** Everything the writer puts into a binary for its sections. */
  predicate Resolved(b: seq<byte>, nodes: seq<Node>, kind: nat, machine: nat, flag: nat)
    requires ValidNodes(nodes)
  {
    && |b| >= TotalSize(nodes) && WrittenUpTo(b, nodes, |nodes|)
    && SectionHeader(b, HeaderAt(|nodes|), 0, STRING_TABLE_TYPE, 0, StringStart(nodes), NameOffset(nodes, |nodes|))
    && ElfHeader(b, kind, machine, flag, |nodes| + 1)
  }

  class CElfWriter {
    const kind: nat
    const machine: nat
    const flag: nat
    var nodeQueue: seq<Node>
    var dataSize: nat
    var numSections: nat
    var stringTableSize: nat

    ghost predicate Valid()
      reads this
    {
      && kind < TWO_16 && machine < TWO_16
      && numSections == Wrap32(|nodeQueue|) && dataSize == Wrap32(DataOffset(nodeQueue, |nodeQueue|))
      && stringTableSize == Wrap64(NameOffset(nodeQueue, |nodeQueue|))
    }

    constructor (kind: nat, machine: nat, flag: nat)
      requires kind < TWO_16 && machine < TWO_16
      ensures Valid() && nodeQueue == [EmptyNode()]
      ensures this.kind == kind && this.machine == machine && this.flag == flag
    {
      this.kind, this.machine, this.flag := kind, machine, flag;
      nodeQueue, dataSize, numSections, stringTableSize := [], 0, 0, 0;
      new;
      AddSection(EmptyNode());
    }

    method AddSection(node: Node)
      requires Valid()
      modifies this
      ensures Valid() && nodeQueue == old(nodeQueue) + [node]
    {
      OffsetsOfPrefix(nodeQueue, node, |nodeQueue|);
      Wrap32Sum(DataOffset(nodeQueue, |nodeQueue|), node.dataSize);
      Wrap64Sum(NameOffset(nodeQueue, |nodeQueue|), |node.name| + 1);
      Wrap32Sum(|nodeQueue|, 1);
      var nameSize := |node.name| + 1;
      nodeQueue := nodeQueue + [node];
      dataSize := Wrap32(dataSize + node.dataSize);
      stringTableSize := Wrap64(stringTableSize + nameSize);
      numSections := Wrap32(numSections + 1);
    }

    function GetTotalBinarySize(): nat
      reads this
    {
      HEADER_SIZE + Wrap32(numSections + 1) * SECTION_HEADER_SIZE + dataSize + stringTableSize
    }

    method Grown(binary: seq<byte>) returns (b: seq<byte>)
      requires Valid() && FitsFields(nodeQueue)
      ensures |b| == Max(|binary|, TotalSize(nodeQueue)) && b[..|binary|] == binary
      ensures numSections == |nodeQueue| && dataSize == DataOffset(nodeQueue, |nodeQueue|)
      ensures stringTableSize == NameOffset(nodeQueue, |nodeQueue|)
    {
      b := binary;
      if |b| < GetTotalBinarySize() {
        b := b + Zeros(GetTotalBinarySize() - |b|);
      }
    }

    /** Resolve the queue into a binary, growing it if it is too small; this empties the queue. */
    method ResolveBinary(binary: seq<byte>) returns (b: seq<byte>)
      requires Valid() && ValidNodes(nodeQueue) && FitsFields(nodeQueue)
      modifies this
      ensures nodeQueue == []
      ensures |b| == Max(|binary|, TotalSize(old(nodeQueue)))
      ensures Resolved(b, old(nodeQueue), kind, machine, flag)
    {
      ghost var nodes, k := nodeQueue, 0;
      b := Grown(binary);
      var curSectionHeader := HEADER_SIZE;
      var data := HEADER_SIZE + (numSections + 1) * SECTION_HEADER_SIZE;
      var stringTable := data + dataSize;
      var curString := stringTable;
      while nodeQueue != []
        modifies this`nodeQueue
        invariant k <= |nodes| && nodeQueue == nodes[k..]
        invariant |b| == Max(|binary|, TotalSize(nodes)) && WrittenUpTo(b, nodes, k)
        invariant curSectionHeader == HeaderAt(k) && data == DataStart(nodes) + DataOffset(nodes, k)
        invariant stringTable == StringStart(nodes) && curString == stringTable + NameOffset(nodes, k)
        decreases |nodeQueue|
      {
        b, curSectionHeader, data, curString := ResolveSection(b, nodes, k, nodeQueue[0], stringTable,
            curSectionHeader, data, curString);
        nodeQueue := nodeQueue[1..];
        k := k + 1;
      }
      b := ResolveEnd(b, nodes, curSectionHeader, stringTable);
    }

    method ResolveSection(binary: seq<byte>, ghost nodes: seq<Node>, ghost k: nat, front: Node, stringTable: nat,
                          curSectionHeader: nat, data: nat, curString: nat)
      returns (b: seq<byte>, nextHeader: nat, nextData: nat, nextString: nat)
      requires k < |nodes| && front == nodes[k] && ValidNodes(nodes) && FitsFields(nodes)
      requires |binary| >= TotalSize(nodes) && WrittenUpTo(binary, nodes, k)
      requires curSectionHeader == HeaderAt(k) && data == DataStart(nodes) + DataOffset(nodes, k)
      requires stringTable == StringStart(nodes) && curString == stringTable + NameOffset(nodes, k)
      ensures |b| == |binary| && WrittenUpTo(b, nodes, k + 1)
      ensures nextHeader == HeaderAt(k + 1) && nextData == DataStart(nodes) + DataOffset(nodes, k + 1)
      ensures nextString == stringTable + NameOffset(nodes, k + 1)
    {
      OwnRegion(nodes, k);
      OffsetBounds(nodes, k);
      var headed := PutSectionHeader(binary, curSectionHeader, curString - stringTable, front.kind, front.flag,
          data, front.dataSize);
      EarlierStill(binary, headed, curSectionHeader, curSectionHeader + SECTION_HEADER_SIZE, nodes, k);
      var filled := PutBytes(headed, data, DataBytes(front));
      EarlierStill(headed, filled, data, data + front.dataSize, nodes, k);
      b := PutBytes(filled, curString, NameBytes(front));
      EarlierStill(filled, b, curString, curString + |front.name| + 1, nodes, k);
      ThisWritten(nodes, k, headed, filled, b, data, curString, front);
      nextHeader, nextData, nextString := curSectionHeader + SECTION_HEADER_SIZE, data + front.dataSize,
          curString + |front.name| + 1;
    }

    /** The header of the string table, and the header of the file. */
    method ResolveEnd(binary: seq<byte>, ghost nodes: seq<Node>, curSectionHeader: nat,
        stringTable: nat) returns (b: seq<byte>)
      requires ValidNodes(nodes) && FitsFields(nodes) && |binary| >= TotalSize(nodes)
        && WrittenUpTo(binary, nodes, |nodes|)
      requires curSectionHeader == HeaderAt(|nodes|) && stringTable == StringStart(nodes)
      requires kind < TWO_16 && machine < TWO_16 && stringTableSize == NameOffset(nodes, |nodes|)
        && numSections == |nodes|
      modifies this`numSections
      ensures |b| == |binary| && Resolved(b, nodes, kind, machine, flag)
    {
      var cleared := PutBytes(binary, curSectionHeader, Zeros(SECTION_HEADER_SIZE));
      AllStill(binary, cleared, HeaderAt(|nodes|), HeaderAt(|nodes| + 1), nodes);
      var tabled := PutSectionHeader(cleared, curSectionHeader, 0, STRING_TABLE_TYPE, 0, stringTable, stringTableSize);
      AllStill(cleared, tabled, HeaderAt(|nodes|), HeaderAt(|nodes| + 1), nodes);
      numSections := numSections + 1;
      b := PatchElfHeader(tabled, kind, machine, flag, numSections);
      AllStill(tabled, b, 0, HEADER_SIZE, nodes);
      HeaderStill(tabled, b, 0, HEADER_SIZE, HeaderAt(|nodes|), 0, STRING_TABLE_TYPE, 0, stringTable, stringTableSize);
    }
  }

  lemma OffsetBounds(nodes: seq<Node>, k: nat)
    requires k < |nodes| && FitsFields(nodes) && ValidNodes(nodes)
    ensures NameOffset(nodes, k) < TWO_32 && DataStart(nodes) + DataOffset(nodes, k) < TWO_64
    ensures ValidNode(nodes[k])
  {
    OffsetsGrow(nodes, k, |nodes|);
  }

  lemma ThisWritten(nodes: seq<Node>, k: nat, headed: seq<byte>, filled: seq<byte>, b: seq<byte>, data: nat,
      name: nat, n: Node)
    requires k < |nodes| && ValidNodes(nodes) && WrittenUpTo(b, nodes, k) && n == nodes[k]
    requires data == DataStart(nodes) + DataOffset(nodes, k) && name == StringStart(nodes) + NameOffset(nodes, k)
    requires SectionHeader(headed, HeaderAt(k), NameOffset(nodes, k), n.kind, n.flag, data, n.dataSize)
    requires SameOutside(headed, filled, data, data + n.dataSize) && filled[data..data + n.dataSize] == DataBytes(n)
    requires SameOutside(filled, b, name, name + |n.name| + 1) && b[name..name + |n.name| + 1] == NameBytes(n)
    ensures WrittenUpTo(b, nodes, k + 1)
  {
    OwnRegion(nodes, k);
    assert SectionHeader(b, HeaderAt(k), NameOffset(nodes, k), n.kind, n.flag, data, n.dataSize) by {
      HeaderStill(headed, filled, data, data + n.dataSize, HeaderAt(k), NameOffset(nodes, k), n.kind, n.flag, data,
          n.dataSize);
      HeaderStill(filled, b, name, name + |n.name| + 1, HeaderAt(k), NameOffset(nodes, k), n.kind, n.flag, data,
          n.dataSize);
    }
    assert b[data..data + n.dataSize] == DataBytes(n) by {
      Kept(filled, b, name, name + |n.name| + 1, data, data + n.dataSize);
    }
    WrittenNext(b, nodes, k, data, name, n);
  }

  lemma WrittenNext(b: seq<byte>, nodes: seq<Node>, k: nat, data: nat, name: nat, n: Node)
    requires k < |nodes| && ValidNodes(nodes) && WrittenUpTo(b, nodes, k) && n == nodes[k]
    requires data == DataStart(nodes) + DataOffset(nodes, k) && name == StringStart(nodes) + NameOffset(nodes, k)
    requires SectionHeader(b, HeaderAt(k), NameOffset(nodes, k), n.kind, n.flag, data, n.dataSize)
    requires data + n.dataSize <= |b| && b[data..data + n.dataSize] == DataBytes(n)
    requires name + |n.name| + 1 <= |b| && b[name..name + |n.name| + 1] == NameBytes(n)
    ensures WrittenUpTo(b, nodes, k + 1)
  {
    assert Written(b, nodes, k);
  }

  /** The string table header and the file header lie before or after all that is written for the sections. */
  lemma AllStill(a: seq<byte>, b: seq<byte>, lo: nat, hi: nat, nodes: seq<Node>)
    requires ValidNodes(nodes) && WrittenUpTo(a, nodes, |nodes|) && SameOutside(a, b, lo, hi)
    requires hi <= HEADER_SIZE || (lo == HeaderAt(|nodes|) && hi == DataStart(nodes))
    ensures WrittenUpTo(b, nodes, |nodes|)
  {
    forall i | 0 <= i < |nodes| ensures Written(b, nodes, i) {
      assert Written(a, nodes, i);
      OwnRegion(nodes, i);
      WrittenStill(a, b, lo, hi, nodes, i);
    }
  }
}

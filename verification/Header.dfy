/** The header at the start of a shared device, `struct eob_header` of include/eoblock.h, and the
    node registry that eob_hdr_init, eob_hdr_add_device, eob_hdr_rem_device and eob_hdr_deinit of
    lib/liboblock.c keep in it. Fields are little-endian; the checksum function is a parameter. */
module Header {
  import opened Bytes

  const HDR_SIZE: nat := 512
  const PEAMB_SIZE: nat := 296
  const MAX_CLUSTER_SIZE: nat := 32
  const EOB_DEFAULT_BLK_SIZE: nat := 4096
  const EOB_HDR_MAGIC: nat := 0xe0b10c3003
  const EOB_HDR_VERSION: nat := 2

  // Byte offsets of the fields.
  const MAGIC: nat := 0
  const VERSION: nat := 8
  const PHYS_BLK_SIZE: nat := 16
  const VIRT_BLK_SIZE: nat := 24
  const NODES_COUNT: nat := 32
  const NODES: nat := 40
  const CHKSUM: nat := 504

  datatype Status = EOB_OK | EOB_CHKSUM | EOB_INVAL | EOB_VER_MISM | EOB_2BIG

  /** `struct eob_node_data_phys`. */
  datatype NodeData = NodeData(flags: Word, ipAddr: Word)

  const NO_NODE := NodeData(0, 0)

  /** `EOB_NODE_IS_PRESENT`: bit 0 of the flags. */
  predicate IsPresent(n: NodeData) {
    n.flags % 2 == 1
  }

  // ---- Fields of the 512 bytes ----

  function Field(b: seq<Byte>, off: nat, size: nat): nat
    requires off + size <= |b|
  {
    FromBytes(b[off..off + size])
  }

  function SetField(b: seq<Byte>, off: nat, size: nat, w: nat): (r: seq<Byte>)
    requires off + size <= |b|
    ensures |r| == |b|
  {
    WriteAt(b, off, ToBytes(size, w))
  }

  lemma FieldSet(b: seq<Byte>, off: nat, size: nat, w: nat)
    requires off + size <= |b| && w < Pow256(size)
    ensures Field(SetField(b, off, size, w), off, size) == w
  {
    WriteInside(b, off, ToBytes(size, w), off + size);
    assert ToBytes(size, w) + b[off + size..off + size] == ToBytes(size, w);
    FieldRoundTrip(size, w);
  }

  lemma FieldKept(b: seq<Byte>, off: nat, size: nat, w: nat, at: nat, n: nat)
    requires off + size <= |b| && at + n <= |b| && (at + n <= off || off + size <= at)
    ensures Field(SetField(b, off, size, w), at, n) == Field(b, at, n)
  {
    WriteElsewhere(b, off, ToBytes(size, w), at, at + n);
  }

  function NodeAt(b: seq<Byte>, i: nat): NodeData
    requires |b| == HDR_SIZE && i < MAX_CLUSTER_SIZE
  {
    FieldSizes();
    NodeData(Field(b, NODES + 8 * i, 4), Field(b, NODES + 8 * i + 4, 4))
  }

  function SetNode(b: seq<Byte>, i: nat, d: NodeData): (r: seq<Byte>)
    requires |b| == HDR_SIZE && i < MAX_CLUSTER_SIZE
    ensures |r| == HDR_SIZE
  {
    SetField(SetField(b, NODES + 8 * i, 4, d.flags), NODES + 8 * i + 4, 4, d.ipAddr)
  }

  lemma NodeSet(b: seq<Byte>, i: nat, d: NodeData, j: nat)
    requires |b| == HDR_SIZE && i < MAX_CLUSTER_SIZE && j < MAX_CLUSTER_SIZE
    ensures NodeAt(SetNode(b, i, d), j) == if i == j then d else NodeAt(b, j)
  {
    hide SetField, Field;
    FieldSizes();
    var at := NODES + 8 * i;
    var b1 := SetField(b, at, 4, d.flags);
    if i == j {
      FieldSet(b, at, 4, d.flags);
      FieldKept(b1, at + 4, 4, d.ipAddr, at, 4);
      FieldSet(b1, at + 4, 4, d.ipAddr);
    } else {
      var to := NODES + 8 * j;
      FieldKept(b, at, 4, d.flags, to, 4);
      FieldKept(b, at, 4, d.flags, to + 4, 4);
      FieldKept(b1, at + 4, 4, d.ipAddr, to, 4);
      FieldKept(b1, at + 4, 4, d.ipAddr, to + 4, 4);
    }
  }

  lemma NodeSetField(b: seq<Byte>, i: nat, d: NodeData, off: nat)
    requires |b| == HDR_SIZE && i < MAX_CLUSTER_SIZE && off + 8 <= NODES
    ensures Field(SetNode(b, i, d), off, 8) == Field(b, off, 8)
  {
    hide SetField, Field;
    var at := NODES + 8 * i;
    FieldKept(b, at, 4, d.flags, off, 8);
    FieldKept(SetField(b, at, 4, d.flags), at + 4, 4, d.ipAddr, off, 8);
  }

  // ---- Checksum, and when a header is accepted ----

  /** `eob_header_chksum_is_ok`. */
  predicate ChksumIsOk(crc: Crc, b: seq<Byte>)
    requires |b| == HDR_SIZE
  {
    Field(b, CHKSUM, 8) == crc(b[..PEAMB_SIZE])
  }

  /** `eob_header_chksum_calc`. */
  function Stamp(crc: Crc, b: seq<Byte>): (r: seq<Byte>)
    requires |b| == HDR_SIZE
    ensures |r| == HDR_SIZE
  {
    SetField(b, CHKSUM, 8, crc(b[..PEAMB_SIZE]))
  }

  lemma StampOk(crc: Crc, b: seq<Byte>)
    requires |b| == HDR_SIZE
    ensures ChksumIsOk(crc, Stamp(crc, b)) && Stamp(crc, b)[..PEAMB_SIZE] == b[..PEAMB_SIZE]
    ensures FromBytes(Stamp(crc, b)[504..512]) == crc(b[..296])
  {
    hide WriteAt, ToBytes, FromBytes, Pow256;
    FieldSizes();
    var w := crc(b[..PEAMB_SIZE]);
    FieldSet(b, CHKSUM, 8, w);
    WriteElsewhere(b, CHKSUM, ToBytes(8, w), 0, PEAMB_SIZE);
  }

  /** Fields below the checksum do not change with it. */
  lemma SamePeamb(a: seq<Byte>, b: seq<Byte>, off: nat, size: nat)
    requires |a| == HDR_SIZE && |b| == HDR_SIZE && a[..PEAMB_SIZE] == b[..PEAMB_SIZE] && off + size <= PEAMB_SIZE
    ensures Field(a, off, size) == Field(b, off, size)
  {
    InPrefix(a, PEAMB_SIZE, off, off + size);
    InPrefix(b, PEAMB_SIZE, off, off + size);
  }

  lemma InPrefix(b: seq<Byte>, n: nat, from: nat, to: nat)
    requires from <= to <= n <= |b|
    ensures b[..n][from..to] == b[from..to]
  {
  }

  /** What one pass of eob_read_header decides: a wrong checksum or magic means another pass. */
  function Decision(crc: Crc, b: seq<Byte>): Option<Status>
    requires |b| == HDR_SIZE
  {
    if !ChksumIsOk(crc, b) || Field(b, MAGIC, 8) != EOB_HDR_MAGIC then None
    else if Field(b, VERSION, 8) != EOB_HDR_VERSION then Some(EOB_VER_MISM)
    else Some(EOB_OK)
  }

  /** The bytes of an acceptable header, of any version: the checksum of the first 296 and the magic number. */
  ghost predicate Accepted(crc: Crc, b: seq<Byte>)
    requires |b| >= 512
  {
    FromBytes(b[504..512]) == crc(b[..296]) && FromBytes(b[0..8]) == 0xe0b10c3003
  }

  lemma DecisionAccepts(crc: Crc, b: seq<Byte>)
    requires |b| == HDR_SIZE
    ensures Decision(crc, b) == None <==> !Accepted(crc, b)
    ensures Decision(crc, b) == Some(EOB_VER_MISM) <==> Accepted(crc, b) && FromBytes(b[8..16]) != 2
  {
  }

  /** A stamped header with any other checksum, as after a torn write, is not accepted. */
  lemma TornRejected(crc: Crc, b: seq<Byte>, sum: seq<Byte>)
    requires |b| == HDR_SIZE && |sum| == 8 && sum != Stamp(crc, b)[504..512]
    ensures var t := Stamp(crc, b)[..504] + sum;
      FromBytes(t[504..512]) != crc(t[..296]) && Decision(crc, t) == None
  {
    hide FromBytes, ToBytes, Stamp;
    StampOk(crc, b);
    var s := Stamp(crc, b);
    var t := s[..504] + sum;
    assert t[504..512] == sum && t[..296] == s[..296];
    FieldBack(sum);
    FieldBack(s[504..512]);
  }

  const MAX_PASS: nat := 10

  /** Pass `p` is the first that decides. */
  ghost predicate DecidesAt(crc: Crc, disk: nat -> seq<Byte>, p: nat)
    requires forall q :: |disk(q)| == HDR_SIZE
  {
    1 <= p <= MAX_PASS && Decision(crc, disk(p)) != None && forall q :: 1 <= q < p ==> Decision(crc, disk(q)) == None
  }

  ghost predicate FirstAccepted(crc: Crc, disk: nat -> seq<Byte>, p: nat)
    requires forall q :: |disk(q)| == HDR_SIZE
  {
    Accepted(crc, disk(p)) && forall q :: 1 <= q < p ==> !Accepted(crc, disk(q))
  }

  lemma DecidesHere(crc: Crc, disk: nat -> seq<Byte>, p: nat)
    requires forall q :: |disk(q)| == HDR_SIZE
    requires 1 <= p <= MAX_PASS && Decision(crc, disk(p)) != None && forall q :: 1 <= q < p ==> Decision(crc, disk(q)) == None
    ensures DecidesAt(crc, disk, p)
  {
  }

  lemma AcceptedMeans(crc: Crc, disk: nat -> seq<Byte>)
    requires forall p :: |disk(p)| == HDR_SIZE
    ensures (exists p :: 1 <= p <= 10 && Accepted(crc, disk(p))) <==>
      (exists p ::
         && 1 <= p <= 10
         && FromBytes(disk(p)[504..512]) == crc(disk(p)[..296])
         && FromBytes(disk(p)[0..8]) == 0xe0b10c3003)
  {
    hide FromBytes;
  }

  /** What the decisions of the passes mean on the bytes. */
  lemma ReadOnBytes(crc: Crc, disk: nat -> seq<Byte>, rv: Status, hdr: seq<Byte>)
    requires forall p :: |disk(p)| == HDR_SIZE
    requires rv == EOB_CHKSUM <==> forall p :: 1 <= p <= MAX_PASS ==> Decision(crc, disk(p)) == None
    requires rv != EOB_CHKSUM ==> exists p :: DecidesAt(crc, disk, p) && hdr == disk(p) && Decision(crc, hdr) == Some(rv)
    requires rv == EOB_OK || rv == EOB_VER_MISM || rv == EOB_CHKSUM
    ensures rv == EOB_OK || rv == EOB_VER_MISM <==>
      (exists p ::
         && 1 <= p <= 10
         && FromBytes(disk(p)[504..512]) == crc(disk(p)[..296])
         && FromBytes(disk(p)[0..8]) == 0xe0b10c3003)
    ensures rv == EOB_VER_MISM <==> exists p :: 1 <= p <= 10 && FirstAccepted(crc, disk, p) && FromBytes(disk(p)[8..16]) != 2
    ensures rv == EOB_OK <==> exists p :: 1 <= p <= 10 && FirstAccepted(crc, disk, p) && FromBytes(disk(p)[8..16]) == 2
  {
    hide Field, FromBytes, Decision, Accepted, FirstAccepted, DecidesAt;
    AcceptedMeans(crc, disk);
    if rv == EOB_CHKSUM {
      NoneAccepted(crc, disk);
    } else {
      var p :| DecidesAt(crc, disk, p) && hdr == disk(p) && Decision(crc, hdr) == Some(rv);
      DecisionAccepts(crc, hdr);
      FirstIs(crc, disk, p);
    }
  }

  lemma NoneAccepted(crc: Crc, disk: nat -> seq<Byte>)
    requires forall p :: |disk(p)| == HDR_SIZE
    requires forall p :: 1 <= p <= MAX_PASS ==> Decision(crc, disk(p)) == None
    ensures forall p :: 1 <= p <= 10 ==> !Accepted(crc, disk(p)) && !FirstAccepted(crc, disk, p)
  {
    hide Field, FromBytes, Decision, Accepted;
    forall p | 1 <= p <= 10 ensures !Accepted(crc, disk(p)) && !FirstAccepted(crc, disk, p) {
      DecisionAccepts(crc, disk(p));
    }
  }

  /** Only one pass can be the first. */
  lemma FirstIs(crc: Crc, disk: nat -> seq<Byte>, p: nat)
    requires (forall q :: |disk(q)| == HDR_SIZE) && DecidesAt(crc, disk, p)
    ensures 1 <= p <= 10 && Accepted(crc, disk(p)) && FirstAccepted(crc, disk, p)
    ensures forall q :: 1 <= q <= 10 && FirstAccepted(crc, disk, q) ==> q == p
  {
    hide Field, FromBytes, Decision, Accepted;
    DecisionAccepts(crc, disk(p));
    forall q | 1 <= q < p ensures !Accepted(crc, disk(q)) {
      DecisionAccepts(crc, disk(q));
    }
  }

  /** `eob_read_header`; `disk(p)` is what is on the device at pass `p`, which others may be writing. */
  method ReadHeader(crc: Crc, disk: nat -> seq<Byte>) returns (rv: Status, hdr: seq<Byte>)
    requires forall p :: |disk(p)| == HDR_SIZE
    ensures rv == EOB_CHKSUM <==> forall p :: 1 <= p <= MAX_PASS ==> Decision(crc, disk(p)) == None
    ensures rv != EOB_CHKSUM ==> exists p :: DecidesAt(crc, disk, p) && hdr == disk(p) && Decision(crc, hdr) == Some(rv)
    ensures rv == EOB_OK || rv == EOB_VER_MISM || rv == EOB_CHKSUM
    ensures rv == EOB_OK || rv == EOB_VER_MISM <==>
      (exists p ::
         && 1 <= p <= 10
         && FromBytes(disk(p)[504..512]) == crc(disk(p)[..296])
         && FromBytes(disk(p)[0..8]) == 0xe0b10c3003)
    ensures rv == EOB_VER_MISM <==> exists p :: 1 <= p <= 10 && FirstAccepted(crc, disk, p) && FromBytes(disk(p)[8..16]) != 2
    ensures rv == EOB_OK <==> exists p :: 1 <= p <= 10 && FirstAccepted(crc, disk, p) && FromBytes(disk(p)[8..16]) == 2
  {
    hide Field, FromBytes, FirstAccepted, Accepted, DecidesAt;
    var pass := 0;
    while true
      invariant 0 <= pass < MAX_PASS
      invariant forall p :: 1 <= p <= pass ==> Decision(crc, disk(p)) == None
      decreases MAX_PASS - pass
    {
      pass := pass + 1;
      hdr := disk(pass);
      if ChksumIsOk(crc, hdr) {
        if Field(hdr, MAGIC, 8) == EOB_HDR_MAGIC {
          assert DecidesAt(crc, disk, pass) by { DecidesHere(crc, disk, pass); }
          if Field(hdr, VERSION, 8) != EOB_HDR_VERSION {
            ReadOnBytes(crc, disk, EOB_VER_MISM, hdr);
            return EOB_VER_MISM, hdr;
          } else {
            ReadOnBytes(crc, disk, EOB_OK, hdr);
            return EOB_OK, hdr;
          }
        }
      }
      if pass >= MAX_PASS {
        ReadOnBytes(crc, disk, EOB_CHKSUM, hdr);
        return EOB_CHKSUM, hdr;
      }
    }
  }

  /** Reading a device that nobody else writes. */
  method ReadQuiet(crc: Crc, image: seq<Byte>) returns (rv: Status, hdr: seq<Byte>)
    requires |image| == HDR_SIZE
    ensures match Decision(crc, image)
            case None => rv == EOB_CHKSUM
            case Some(status) => rv == status && hdr == image
  {
    hide Decision;
    var disk := (p: nat) => image;
    rv, hdr := ReadHeader(crc, disk);
    assert disk(1) == image;
  }

  // ---- The registry ----

  /** What the header says: nothing after eob_hdr_deinit, else the sizes and the table of nodes. */
  datatype Registry = NoHeader | Registry(phys: nat, virt: nat, count: nat, nodes: seq<NodeData>)

  predicate RegistryShape(r: Registry) {
    r.Registry? ==> |r.nodes| == MAX_CLUSTER_SIZE && r.count <= MAX_CLUSTER_SIZE
  }

  ghost predicate Contents(b: seq<Byte>, r: Registry)
    requires |b| == HDR_SIZE && r.Registry?
  {
    && Field(b, MAGIC, 8) == EOB_HDR_MAGIC && Field(b, VERSION, 8) == EOB_HDR_VERSION
    && Field(b, PHYS_BLK_SIZE, 8) == r.phys && Field(b, VIRT_BLK_SIZE, 8) == r.virt && Field(b, NODES_COUNT, 8) == r.count
    && |r.nodes| == MAX_CLUSTER_SIZE
    && forall i :: 0 <= i < MAX_CLUSTER_SIZE ==> NodeAt(b, i) == r.nodes[i]
  }

  /** The device holds the registry: either an acceptable header with these contents, or one that no pass accepts. */
  ghost predicate Holds(crc: Crc, disk: seq<Byte>, r: Registry) {
    && |disk| >= HDR_SIZE
    && match r
       case NoHeader => Decision(crc, disk[..HDR_SIZE]) == None
       case Registry(phys, _, count, _) =>
         && ChksumIsOk(crc, disk[..HDR_SIZE]) && Contents(disk[..HDR_SIZE], r)
         && HDR_SIZE <= phys <= |disk| && count <= MAX_CLUSTER_SIZE
  }

  datatype Op =
    | Init(count: nat, virt: nat, phys: nat)
    | Deinit
    | AddDevice(id: int, data: NodeData, force: bool)
    | RemDevice(id: int)

  function OrDefault(size: nat, default: nat): nat {
    if size == 0 then default else size
  }

  /** What the operations demand of their callers: the VERIFYs of eob_hdr_init, and indices inside the table. */
  predicate Allowed(op: Op, size: nat) {
    match op
    case Init(count, virt, phys) =>
      && count <= MAX_CLUSTER_SIZE
      && HDR_SIZE <= OrDefault(phys, EOB_DEFAULT_BLK_SIZE) <= OrDefault(virt, EOB_DEFAULT_BLK_SIZE) < 0x8000_0000
      && OrDefault(phys, EOB_DEFAULT_BLK_SIZE) <= size
    case RemDevice(id) => 0 <= id < MAX_CLUSTER_SIZE
    case _ => true
  }

  function FirstRegistry(count: nat, virt: nat, phys: nat): Registry {
    Registry(phys, virt, count, seq(MAX_CLUSTER_SIZE, i => NO_NODE))
  }

  /** The abstract operations. */
  function Apply(r: Registry, op: Op): (out: (Status, Registry))
    requires RegistryShape(r) && (op.Init? ==> op.count <= MAX_CLUSTER_SIZE)
    ensures RegistryShape(out.1)
  {
    match op
    case Init(count, virt, phys) =>
      (EOB_OK, FirstRegistry(OrDefault(count, MAX_CLUSTER_SIZE), OrDefault(virt, EOB_DEFAULT_BLK_SIZE), OrDefault(phys, EOB_DEFAULT_BLK_SIZE)))
    case Deinit => (EOB_OK, NoHeader)
    case AddDevice(id, data, force) =>
      if r.NoHeader? then (EOB_CHKSUM, r)
      else if !(0 <= id < r.count) || (!force && IsPresent(r.nodes[id])) then (EOB_INVAL, r)
      else (EOB_OK, r.(nodes := r.nodes[id := data]))
    case RemDevice(id) =>
      if r.NoHeader? then (EOB_CHKSUM, r)
      else if 0 <= id < MAX_CLUSTER_SIZE then (EOB_OK, if IsPresent(r.nodes[id]) then r.(nodes := r.nodes[id := NO_NODE]) else r)
      else (EOB_OK, r)
  }

  // ---- The operations on the device ----

  /** The two words of entry `i` of the node table. */
  ghost predicate EntryIs(b: seq<Byte>, i: nat, flags: nat, ipAddr: nat)
    requires |b| >= 512 && i < 32
  {
    FromBytes(b[40 + 8 * i..44 + 8 * i]) == flags && FromBytes(b[44 + 8 * i..48 + 8 * i]) == ipAddr
  }

  /** Entry `j` of the node table is the same in both. */
  ghost predicate SameEntry(a: seq<Byte>, b: seq<Byte>, j: nat)
    requires |a| >= 512 && |b| >= 512 && j < 32
  {
    && FromBytes(a[40 + 8 * j..44 + 8 * j]) == FromBytes(b[40 + 8 * j..44 + 8 * j])
    && FromBytes(a[44 + 8 * j..48 + 8 * j]) == FromBytes(b[44 + 8 * j..48 + 8 * j])
  }

  /** The version, the block sizes and the node count are the same in both. */
  ghost predicate SameSizes(a: seq<Byte>, b: seq<Byte>)
    requires |a| >= 512 && |b| >= 512
  {
    && FromBytes(a[8..16]) == FromBytes(b[8..16]) && FromBytes(a[16..24]) == FromBytes(b[16..24])
    && FromBytes(a[24..32]) == FromBytes(b[24..32]) && FromBytes(a[32..40]) == FromBytes(b[32..40])
  }

  /** The device, with the registry it is meant to hold. */
  class Device {
    const crc: Crc
    var bytes: seq<Byte>
    ghost var registry: Registry

    constructor (crc: Crc, bytes: seq<Byte>)
      requires |bytes| >= HDR_SIZE && Decision(crc, bytes[..HDR_SIZE]) == None
      ensures Valid() && registry == NoHeader && this.bytes == bytes && this.crc == crc
    {
      this.crc, this.bytes, registry := crc, bytes, NoHeader;
    }

    ghost predicate Valid()
      reads this
    {
      Holds(crc, bytes, registry)
    }

    /** `eob_write_header`: the header, and zeros up to the physical block size. */
    method WriteHeader(hdr: seq<Byte>, ghost r: Registry)
      requires |hdr| == HDR_SIZE && r.Registry? && r.count <= MAX_CLUSTER_SIZE && HDR_SIZE <= r.phys <= |bytes|
      requires ChksumIsOk(crc, hdr) && Contents(hdr, r)
      modifies this
      ensures Valid() && registry == r
      ensures |bytes| == |old(bytes)|
      ensures bytes == WriteAt(old(bytes), 0, hdr + Zeros(r.phys - HDR_SIZE))
      ensures bytes[r.phys..] == old(bytes)[r.phys..]
    {
      hide ChksumIsOk, Contents;
      ghost var was := bytes;
      var phys := PhysSize(hdr, r);
      var buf := hdr + Zeros(phys - HDR_SIZE);
      bytes := WriteAt(bytes, 0, buf);
      registry := r;
      assert bytes[..HDR_SIZE] == hdr;
      WriteElsewhere(was, 0, buf, phys, |was|);
    }

    /** `hdr->h.phys_blk_size`. */
    function PhysSize(hdr: seq<Byte>, ghost r: Registry): (phys: nat)
      requires |hdr| == HDR_SIZE && r.Registry? && Contents(hdr, r)
      ensures phys == r.phys
    {
      Field(hdr, PHYS_BLK_SIZE, 8)
    }

    /** `eob_hdr_init`. */
    method InitHeader(nodesCount: nat, virtBlkSize: nat, physBlkSize: nat) returns (rv: Status)
      requires Valid() && Allowed(Init(nodesCount, virtBlkSize, physBlkSize), |bytes|)
      modifies this
      ensures Valid() && RegistryShape(old(registry))
      ensures (rv, registry) == Apply(old(registry), Init(nodesCount, virtBlkSize, physBlkSize))
      ensures |bytes| == |old(bytes)| && bytes[registry.phys..] == old(bytes)[registry.phys..]
      ensures rv == EOB_OK && Accepted(crc, bytes) && FromBytes(bytes[8..16]) == 2
      ensures FromBytes(bytes[16..24]) == registry.phys == if physBlkSize == 0 then 4096 else physBlkSize
      ensures FromBytes(bytes[24..32]) == if virtBlkSize == 0 then 4096 else virtBlkSize
      ensures FromBytes(bytes[32..40]) == if nodesCount == 0 then 32 else nodesCount
      ensures forall i :: 0 <= i < 32 ==> EntryIs(bytes, i, 0, 0)
    {
      hide Contents, ChksumIsOk, Holds, SetField, Stamp, FromBytes, Accepted;
      var count := if nodesCount == 0 then MAX_CLUSTER_SIZE else nodesCount;
      var virt := if virtBlkSize == 0 then EOB_DEFAULT_BLK_SIZE else virtBlkSize;
      var phys := if physBlkSize == 0 then EOB_DEFAULT_BLK_SIZE else physBlkSize;
      ShapeOf(crc, bytes, registry);
      var hdr := Zeros(HDR_SIZE);
      var hdr1 := SetField(hdr, NODES_COUNT, 8, count);
      var hdr2 := SetField(hdr1, VIRT_BLK_SIZE, 8, virt);
      var hdr3 := SetField(hdr2, PHYS_BLK_SIZE, 8, phys);
      var hdr4 := SetField(hdr3, VERSION, 8, EOB_HDR_VERSION);
      var hdr5 := SetField(hdr4, MAGIC, 8, EOB_HDR_MAGIC);
      FirstContents(hdr, hdr1, hdr2, hdr3, hdr4, hdr5, count, virt, phys);
      StampContents(crc, hdr5, FirstRegistry(count, virt, phys));
      WriteHeader(Stamp(crc, hdr5), FirstRegistry(count, virt, phys));
      rv := EOB_OK;
      HoldsBytes(crc, bytes, registry);
      forall i | 0 <= i < 32 ensures EntryIs(bytes, i, 0, 0) {
        HoldsEntry(crc, bytes, registry, i);
      }
    }

    /** `eob_hdr_deinit`. */
    method DeinitHeader() returns (rv: Status)
      requires Valid()
      modifies this
      ensures Valid() && RegistryShape(old(registry)) && (rv, registry) == Apply(old(registry), Deinit)
      ensures |bytes| == |old(bytes)| && bytes[HDR_SIZE..] == old(bytes)[HDR_SIZE..] && bytes[..HDR_SIZE] == Zeros(HDR_SIZE)
      ensures rv == EOB_OK && !Accepted(crc, bytes)
    {
      ghost var was := bytes;
      bytes := WriteAt(bytes, 0, Zeros(HDR_SIZE));
      registry := NoHeader;
      rv := EOB_OK;
      assert bytes[..HDR_SIZE] == Zeros(HDR_SIZE);
      ZerosRejected(crc);
      WriteElsewhere(was, 0, Zeros(HDR_SIZE), HDR_SIZE, |was|);
      HoldsBytes(crc, bytes, registry);
    }

    /** `eob_hdr_add_device`. */
    method AddNode(id: int, data: NodeData, force: bool) returns (rv: Status)
      requires Valid()
      modifies this
      ensures Valid() && RegistryShape(old(registry)) && (rv, registry) == Apply(old(registry), AddDevice(id, data, force))
      ensures |bytes| == |old(bytes)| && (registry.Registry? ==> bytes[registry.phys..] == old(bytes)[registry.phys..])
      ensures rv != EOB_OK ==> bytes == old(bytes)
      ensures |old(bytes)| >= 512
      ensures rv == EOB_CHKSUM <==> !Accepted(crc, old(bytes))
      ensures rv == EOB_INVAL <==>
        && Accepted(crc, old(bytes))
        && !(0 <= id < FromBytes(old(bytes)[32..40]) && id < 32 && (force || FromBytes(old(bytes)[40 + 8 * id..44 + 8 * id]) % 2 == 0))
      ensures rv == EOB_OK || rv == EOB_CHKSUM || rv == EOB_INVAL
      ensures rv == EOB_OK ==>
        && Accepted(crc, bytes) && SameSizes(old(bytes), bytes)
        && 0 <= id < 32
        && FromBytes(bytes[40 + 8 * id..44 + 8 * id]) == data.flags && FromBytes(bytes[44 + 8 * id..48 + 8 * id]) == data.ipAddr
        && forall j :: 0 <= j < 32 && j != id ==> SameEntry(old(bytes), bytes, j)
    {
      hide Contents, ChksumIsOk, Field, SetNode, NodeAt, FromBytes, Accepted, SameEntry, SameSizes;
      HoldsBytes(crc, bytes, registry);
      ShapeOf(crc, bytes, registry);
      var hdr;
      rv, hdr := ReadQuiet(crc, bytes[..HDR_SIZE]);
      ReadOutcome(crc, bytes, registry);
      if rv != EOB_OK {
        return;
      }
      CountRead(hdr, registry);
      if id < 0 || id >= Field(hdr, NODES_COUNT, 8) {
        return EOB_INVAL;
      }
      NodeRead(hdr, registry, id);
      HoldsEntry(crc, bytes, registry, id);
      if !force && IsPresent(NodeAt(hdr, id)) {
        return EOB_INVAL;
      }
      SetContents(hdr, registry, id, data);
      hdr := SetNode(hdr, id, data);
      StampContents(crc, hdr, registry.(nodes := registry.nodes[id := data]));
      hdr := Stamp(crc, hdr);
      ghost var was, r := bytes, registry;
      WriteHeader(hdr, registry.(nodes := registry.nodes[id := data]));
      EntryReplaced(crc, was, bytes, r, id, data);
    }

    /** `eob_hdr_rem_device`. */
    method RemoveNode(id: int) returns (rv: Status)
      requires Valid() && Allowed(RemDevice(id), |bytes|)
      modifies this
      ensures Valid() && RegistryShape(old(registry)) && (rv, registry) == Apply(old(registry), RemDevice(id))
      ensures |bytes| == |old(bytes)| && (registry.Registry? ==> bytes[registry.phys..] == old(bytes)[registry.phys..])
      ensures |old(bytes)| >= 512
      ensures rv == if Accepted(crc, old(bytes)) then EOB_OK else EOB_CHKSUM
      ensures rv != EOB_OK || FromBytes(old(bytes)[40 + 8 * id..44 + 8 * id]) % 2 == 0 ==> bytes == old(bytes)
      ensures rv == EOB_OK && FromBytes(old(bytes)[40 + 8 * id..44 + 8 * id]) % 2 == 1 ==>
        && Accepted(crc, bytes) && SameSizes(old(bytes), bytes)
        && FromBytes(bytes[40 + 8 * id..44 + 8 * id]) == 0 && FromBytes(bytes[44 + 8 * id..48 + 8 * id]) == 0
        && forall j :: 0 <= j < 32 && j != id ==> SameEntry(old(bytes), bytes, j)
    {
      hide Contents, ChksumIsOk, Field, SetNode, NodeAt, FromBytes, Accepted, SameEntry, SameSizes;
      HoldsBytes(crc, bytes, registry);
      ShapeOf(crc, bytes, registry);
      var hdr;
      rv, hdr := ReadQuiet(crc, bytes[..HDR_SIZE]);
      ReadOutcome(crc, bytes, registry);
      if rv != EOB_OK {
        return;
      }
      NodeRead(hdr, registry, id);
      HoldsEntry(crc, bytes, registry, id);
      if !IsPresent(NodeAt(hdr, id)) {
        return EOB_OK;
      }
      SetContents(hdr, registry, id, NO_NODE);
      hdr := SetNode(hdr, id, NO_NODE);
      StampContents(crc, hdr, registry.(nodes := registry.nodes[id := NO_NODE]));
      hdr := Stamp(crc, hdr);
      ghost var was, r := bytes, registry;
      WriteHeader(hdr, registry.(nodes := registry.nodes[id := NO_NODE]));
      EntryReplaced(crc, was, bytes, r, id, NO_NODE);
    }
  }

  // ---- Images and their contents ----

  /** The registry a device holds, word by word. */
  lemma HoldsBytes(crc: Crc, disk: seq<Byte>, r: Registry)
    requires Holds(crc, disk, r)
    ensures |disk| >= 512 && (Accepted(crc, disk) <==> r.Registry?)
    ensures r.Registry? ==>
      && |r.nodes| == 32 && FromBytes(disk[8..16]) == 2
      && FromBytes(disk[16..24]) == r.phys && FromBytes(disk[24..32]) == r.virt && FromBytes(disk[32..40]) == r.count
  {
    hide FromBytes;
    var b := disk[..HDR_SIZE];
    InPrefix(disk, HDR_SIZE, 504, 512);
    InPrefix(disk, HDR_SIZE, 0, 296);
    InPrefix(disk, HDR_SIZE, 0, 8);
    assert disk[0..296] == disk[..296] && b[0..296] == b[..296];
    if r.Registry? {
      InPrefix(disk, HDR_SIZE, 8, 16);
      InPrefix(disk, HDR_SIZE, 16, 24);
      InPrefix(disk, HDR_SIZE, 24, 32);
      InPrefix(disk, HDR_SIZE, 32, 40);
    }
  }

  lemma HoldsEntry(crc: Crc, disk: seq<Byte>, r: Registry, i: nat)
    requires Holds(crc, disk, r) && r.Registry? && i < 32
    ensures |disk| >= 512 && |r.nodes| == 32
    ensures FromBytes(disk[40 + 8 * i..44 + 8 * i]) == r.nodes[i].flags
    ensures FromBytes(disk[44 + 8 * i..48 + 8 * i]) == r.nodes[i].ipAddr
  {
    hide FromBytes;
    InPrefix(disk, HDR_SIZE, 40 + 8 * i, 44 + 8 * i);
    InPrefix(disk, HDR_SIZE, 44 + 8 * i, 48 + 8 * i);
    NodeRead(disk[..HDR_SIZE], r, i);
  }

  /** One entry replaced, word by word. */
  lemma EntryReplaced(crc: Crc, was: seq<Byte>, now: seq<Byte>, r: Registry, id: nat, d: NodeData)
    requires Holds(crc, was, r) && r.Registry? && id < 32 && |r.nodes| == 32
    requires Holds(crc, now, r.(nodes := r.nodes[id := d]))
    ensures |was| >= 512 && |now| >= 512
    ensures Accepted(crc, now) && SameSizes(was, now)
    ensures FromBytes(now[40 + 8 * id..44 + 8 * id]) == d.flags && FromBytes(now[44 + 8 * id..48 + 8 * id]) == d.ipAddr
    ensures forall j :: 0 <= j < 32 && j != id ==> SameEntry(was, now, j)
  {
    hide FromBytes, Holds, Accepted;
    var r' := r.(nodes := r.nodes[id := d]);
    HoldsBytes(crc, was, r);
    HoldsBytes(crc, now, r');
    HoldsEntry(crc, now, r', id);
    forall j | 0 <= j < 32 && j != id ensures SameEntry(was, now, j) {
      HoldsEntry(crc, was, r, j);
      HoldsEntry(crc, now, r', j);
    }
  }

  lemma ShapeOf(crc: Crc, disk: seq<Byte>, r: Registry)
    requires Holds(crc, disk, r)
    ensures |disk| >= HDR_SIZE && RegistryShape(r) && (r.Registry? ==> HDR_SIZE <= r.phys <= |disk|)
  {
  }

  /** What reading the header of a quiet device gives. */
  lemma ReadOutcome(crc: Crc, disk: seq<Byte>, r: Registry)
    requires Holds(crc, disk, r) && |disk| >= HDR_SIZE
    ensures Decision(crc, disk[..HDR_SIZE]) == if r.NoHeader? then None else Some(EOB_OK)
    ensures r.Registry? ==> Contents(disk[..HDR_SIZE], r)
  {
  }

  /** A cleared header is never accepted, whatever the checksum function: zero is not the magic number. */
  lemma ZerosRejected(crc: Crc)
    ensures Decision(crc, Zeros(HDR_SIZE)) == None
  {
    assert Zeros(HDR_SIZE)[MAGIC..MAGIC + 8] == Zeros(8);
    ZeroField(8);
  }

  lemma CountRead(b: seq<Byte>, r: Registry)
    requires |b| == HDR_SIZE && r.Registry? && Contents(b, r)
    ensures Field(b, NODES_COUNT, 8) == r.count
  {
  }

  lemma NodeRead(b: seq<Byte>, r: Registry, i: nat)
    requires |b| == HDR_SIZE && r.Registry? && Contents(b, r) && i < MAX_CLUSTER_SIZE
    ensures |r.nodes| == MAX_CLUSTER_SIZE && NodeAt(b, i) == r.nodes[i]
  {
  }

  lemma SetContents(b: seq<Byte>, r: Registry, i: nat, d: NodeData)
    requires |b| == HDR_SIZE && r.Registry? && Contents(b, r) && i < MAX_CLUSTER_SIZE && |r.nodes| == MAX_CLUSTER_SIZE
    ensures Contents(SetNode(b, i, d), r.(nodes := r.nodes[i := d]))
  {
    hide Field, SetNode, NodeAt;
    NodeSetField(b, i, d, MAGIC);
    NodeSetField(b, i, d, VERSION);
    NodeSetField(b, i, d, PHYS_BLK_SIZE);
    NodeSetField(b, i, d, VIRT_BLK_SIZE);
    NodeSetField(b, i, d, NODES_COUNT);
    forall j | 0 <= j < MAX_CLUSTER_SIZE ensures NodeAt(SetNode(b, i, d), j) == r.nodes[i := d][j] {
      NodeSet(b, i, d, j);
    }
  }

  lemma StampContents(crc: Crc, b: seq<Byte>, r: Registry)
    requires |b| == HDR_SIZE && r.Registry? && Contents(b, r)
    ensures ChksumIsOk(crc, Stamp(crc, b)) && Contents(Stamp(crc, b), r)
  {
    hide Field, Stamp, ChksumIsOk;
    StampOk(crc, b);
    var s := Stamp(crc, b);
    SamePeamb(s, b, MAGIC, 8);
    SamePeamb(s, b, VERSION, 8);
    SamePeamb(s, b, PHYS_BLK_SIZE, 8);
    SamePeamb(s, b, VIRT_BLK_SIZE, 8);
    SamePeamb(s, b, NODES_COUNT, 8);
    forall j | 0 <= j < MAX_CLUSTER_SIZE ensures NodeAt(s, j) == r.nodes[j] {
      SamePeamb(s, b, NODES + 8 * j, 4);
      SamePeamb(s, b, NODES + 8 * j + 4, 4);
    }
  }

  /** The fields eob_hdr_init assigns, one after the other. */
  lemma FirstContents(b: seq<Byte>, b1: seq<Byte>, b2: seq<Byte>, b3: seq<Byte>, b4: seq<Byte>, b5: seq<Byte>,
          count: nat, virt: nat, phys: nat)
    requires count < 0x8000_0000 && virt < 0x8000_0000 && phys < 0x8000_0000
    requires b == Zeros(HDR_SIZE) && b1 == SetField(b, NODES_COUNT, 8, count) && b2 == SetField(b1, VIRT_BLK_SIZE, 8, virt)
    requires b3 == SetField(b2, PHYS_BLK_SIZE, 8, phys) && b4 == SetField(b3, VERSION, 8, EOB_HDR_VERSION)
    requires b5 == SetField(b4, MAGIC, 8, EOB_HDR_MAGIC)
    ensures Contents(b5, FirstRegistry(count, virt, phys))
  {
    hide SetField, Field;
    FieldSizes();
    FieldSet(b, NODES_COUNT, 8, count);
    FieldSet(b1, VIRT_BLK_SIZE, 8, virt);
    FieldSet(b2, PHYS_BLK_SIZE, 8, phys);
    FieldSet(b3, VERSION, 8, EOB_HDR_VERSION);
    FieldSet(b4, MAGIC, 8, EOB_HDR_MAGIC);
    AfterVirt(b1, b2, b3, b4, b5, virt, phys, NODES_COUNT, 8);
    FieldKept(b2, PHYS_BLK_SIZE, 8, phys, VIRT_BLK_SIZE, 8);
    FieldKept(b3, VERSION, 8, EOB_HDR_VERSION, VIRT_BLK_SIZE, 8);
    FieldKept(b4, MAGIC, 8, EOB_HDR_MAGIC, VIRT_BLK_SIZE, 8);
    FieldKept(b3, VERSION, 8, EOB_HDR_VERSION, PHYS_BLK_SIZE, 8);
    FieldKept(b4, MAGIC, 8, EOB_HDR_MAGIC, PHYS_BLK_SIZE, 8);
    FieldKept(b4, MAGIC, 8, EOB_HDR_MAGIC, VERSION, 8);
    forall j | 0 <= j < MAX_CLUSTER_SIZE ensures NodeAt(b5, j) == NO_NODE {
      ZeroNode(b, b1, b2, b3, b4, b5, count, virt, phys, NODES + 8 * j);
      ZeroNode(b, b1, b2, b3, b4, b5, count, virt, phys, NODES + 8 * j + 4);
    }
  }

  lemma AfterVirt(b1: seq<Byte>, b2: seq<Byte>, b3: seq<Byte>, b4: seq<Byte>, b5: seq<Byte>, virt: nat, phys: nat,
          at: nat, n: nat)
    requires |b1| == HDR_SIZE && NODES_COUNT <= at && at + n <= HDR_SIZE
    requires b2 == SetField(b1, VIRT_BLK_SIZE, 8, virt) && b3 == SetField(b2, PHYS_BLK_SIZE, 8, phys)
    requires b4 == SetField(b3, VERSION, 8, EOB_HDR_VERSION) && b5 == SetField(b4, MAGIC, 8, EOB_HDR_MAGIC)
    ensures Field(b5, at, n) == Field(b1, at, n)
  {
    hide SetField, Field;
    FieldKept(b1, VIRT_BLK_SIZE, 8, virt, at, n);
    FieldKept(b2, PHYS_BLK_SIZE, 8, phys, at, n);
    FieldKept(b3, VERSION, 8, EOB_HDR_VERSION, at, n);
    FieldKept(b4, MAGIC, 8, EOB_HDR_MAGIC, at, n);
  }

  lemma ZeroNode(b: seq<Byte>, b1: seq<Byte>, b2: seq<Byte>, b3: seq<Byte>, b4: seq<Byte>, b5: seq<Byte>, count: nat,
          virt: nat, phys: nat, at: nat)
    requires b == Zeros(HDR_SIZE) && b1 == SetField(b, NODES_COUNT, 8, count) && b2 == SetField(b1, VIRT_BLK_SIZE, 8, virt)
    requires b3 == SetField(b2, PHYS_BLK_SIZE, 8, phys) && b4 == SetField(b3, VERSION, 8, EOB_HDR_VERSION)
    requires b5 == SetField(b4, MAGIC, 8, EOB_HDR_MAGIC)
    requires NODES <= at && at + 4 <= HDR_SIZE
    ensures Field(b5, at, 4) == 0
  {
    hide SetField;
    AfterVirt(b1, b2, b3, b4, b5, virt, phys, at, 4);
    FieldKept(b, NODES_COUNT, 8, count, at, 4);
    assert b[at..at + 4] == Zeros(4);
    ZeroField(4);
  }

  // ---- Whole runs ----

  predicate AllAllowed(ops: seq<Op>, size: nat) {
    forall k :: 0 <= k < |ops| ==> Allowed(ops[k], size)
  }

  /** The registry after a run. */
  function ApplyAll(r: Registry, ops: seq<Op>, size: nat): (out: Registry)
    requires RegistryShape(r) && AllAllowed(ops, size)
    ensures RegistryShape(out)
  {
    if ops == [] then r else Apply(ApplyAll(r, ops[..|ops| - 1], size), ops[|ops| - 1]).1
  }

  /** The outcome of operation `k` of a run. */
  function StatusAt(r: Registry, ops: seq<Op>, size: nat, k: nat): Status
    requires RegistryShape(r) && AllAllowed(ops, size) && k < |ops|
  {
    Apply(ApplyAll(r, ops[..k], size), ops[k]).0
  }

  // What the calls of a run and their results say about the header, without looking at the device.

  /** The last of eob_hdr_init and eob_hdr_deinit decides whether there is a header. */
  function Installed(ops: seq<Op>, first: bool): bool {
    if ops == [] then first
    else
      var op := ops[|ops| - 1];
      if op.Init? then true else if op.Deinit? then false else Installed(ops[..|ops| - 1], first)
  }

  /** Physical and virtual block size and node count: those of the last eob_hdr_init, zero standing for the default. */
  function LastSizes(ops: seq<Op>, first: (nat, nat, nat)): (nat, nat, nat) {
    if ops == [] then first
    else
      var op := ops[|ops| - 1];
      if op.Init? then (if op.phys == 0 then 4096 else op.phys, if op.virt == 0 then 4096 else op.virt, if op.count == 0 then 32 else op.count)
      else LastSizes(ops[..|ops| - 1], first)
  }

  /** The two words of entry `id`: the data of the last addition that succeeded, or zeros after a removal of a present
      node or a new header. */
  function LastSet(ops: seq<Op>, statuses: seq<Status>, id: nat, first: (nat, nat)): (nat, nat)
    requires |statuses| == |ops|
  {
    if ops == [] then first
    else
      var n := |ops| - 1;
      var before := LastSet(ops[..n], statuses[..n], id, first);
      match ops[n]
      case Init(_, _, _) => (0, 0)
      case Deinit => before
      case AddDevice(i, data, _) => if i == id && statuses[n] == EOB_OK then (data.flags, data.ipAddr) else before
      case RemDevice(i) => if i == id && statuses[n] == EOB_OK && before.0 % 2 == 1 then (0, 0) else before
  }

  function SizeWords(b: seq<Byte>): (nat, nat, nat)
    requires |b| >= 512
  {
    (FromBytes(b[16..24]), FromBytes(b[24..32]), FromBytes(b[32..40]))
  }

  function EntryWords(b: seq<Byte>, id: nat): (nat, nat)
    requires |b| >= 512 && id < 32
  {
    (FromBytes(b[40 + 8 * id..44 + 8 * id]), FromBytes(b[44 + 8 * id..48 + 8 * id]))
  }

  ghost predicate Tracks(crc: Crc, b0: seq<Byte>, ops: seq<Op>, statuses: seq<Status>, r: Registry)
    requires |b0| >= 512 && |statuses| == |ops|
  {
    && RegistryShape(r) && (r.Registry? <==> Installed(ops, Accepted(crc, b0)))
    && (r.Registry? ==> (r.phys, r.virt, r.count) == LastSizes(ops, SizeWords(b0)) && EntriesTrack(b0, ops, statuses, r.nodes))
  }

  ghost predicate EntriesTrack(b0: seq<Byte>, ops: seq<Op>, statuses: seq<Status>, nodes: seq<NodeData>)
    requires |b0| >= 512 && |statuses| == |ops| && |nodes| == 32
  {
    forall id :: 0 <= id < 32 ==> EntryTracks(b0, ops, statuses, nodes[id], id)
  }

  ghost predicate EntryTracks(b0: seq<Byte>, ops: seq<Op>, statuses: seq<Status>, node: NodeData, id: nat)
    requires |b0| >= 512 && |statuses| == |ops| && id < 32
  {
    (node.flags as nat, node.ipAddr as nat) == LastSet(ops, statuses, id, EntryWords(b0, id))
  }

  lemma TracksStart(crc: Crc, b0: seq<Byte>, r: Registry)
    requires Holds(crc, b0, r)
    ensures |b0| >= 512 && Tracks(crc, b0, [], [], r)
  {
    hide Holds, Accepted, FromBytes;
    HoldsBytes(crc, b0, r);
    ShapeOf(crc, b0, r);
    if r.Registry? {
      forall id | 0 <= id < 32 ensures EntryTracks(b0, [], [], r.nodes[id], id) {
        HoldsEntry(crc, b0, r, id);
      }
    }
  }

  lemma TracksStep(crc: Crc, b0: seq<Byte>, ops: seq<Op>, statuses: seq<Status>, r: Registry, op: Op, size: nat)
    requires |b0| >= 512 && |statuses| == |ops| && Tracks(crc, b0, ops, statuses, r) && Allowed(op, size)
    ensures var (rv, r') := Apply(r, op); Tracks(crc, b0, ops + [op], statuses + [rv], r')
  {
    hide Accepted, SizeWords;
    var (rv, r') := Apply(r, op);
    var all, rvs := ops + [op], statuses + [rv];
    assert all[..|ops|] == ops && rvs[..|ops|] == statuses;
    if r'.Registry? {
      forall id | 0 <= id < 32 ensures EntryTracks(b0, all, rvs, r'.nodes[id], id) {
        if r.Registry? {
          assert EntryTracks(b0, ops, statuses, r.nodes[id], id);
        }
      }
    }
  }

  lemma TracksEnd(crc: Crc, b0: seq<Byte>, ops: seq<Op>, statuses: seq<Status>, b: seq<Byte>, r: Registry)
    requires |b0| >= 512 && |statuses| == |ops| && Tracks(crc, b0, ops, statuses, r) && Holds(crc, b, r)
    ensures |b| >= 512 && (Accepted(crc, b) <==> Installed(ops, Accepted(crc, b0)))
    ensures Accepted(crc, b) ==> FromBytes(b[8..16]) == 2 && SizeWords(b) == LastSizes(ops, SizeWords(b0))
    ensures Accepted(crc, b) ==> forall id :: 0 <= id < 32 ==> EntryWords(b, id) == LastSet(ops, statuses, id, EntryWords(b0, id))
  {
    hide Holds, Accepted, FromBytes;
    HoldsBytes(crc, b, r);
    if r.Registry? {
      forall id | 0 <= id < 32 ensures EntryWords(b, id) == LastSet(ops, statuses, id, EntryWords(b0, id)) {
        assert EntryTracks(b0, ops, statuses, r.nodes[id], id);
        HoldsEntry(crc, b, r, id);
      }
    }
  }

  /** In every run the device ends up holding what the abstract run gives, and what the calls and their results say. */
  method RunAll(dev: Device, ops: seq<Op>) returns (statuses: seq<Status>)
    requires dev.Valid() && RegistryShape(dev.registry) && AllAllowed(ops, |dev.bytes|)
    modifies dev
    ensures dev.Valid() && |statuses| == |ops|
    ensures dev.registry == ApplyAll(old(dev.registry), ops, |old(dev.bytes)|)
    ensures forall k :: 0 <= k < |ops| ==> statuses[k] == StatusAt(old(dev.registry), ops, |old(dev.bytes)|, k)
    ensures |old(dev.bytes)| == |dev.bytes| >= 512
    ensures Accepted(dev.crc, dev.bytes) <==> Installed(ops, Accepted(dev.crc, old(dev.bytes)))
    ensures Accepted(dev.crc, dev.bytes) ==>
      && FromBytes(dev.bytes[8..16]) == 2 && SizeWords(dev.bytes) == LastSizes(ops, SizeWords(old(dev.bytes)))
      && forall id :: 0 <= id < 32 ==> EntryWords(dev.bytes, id) == LastSet(ops, statuses, id, EntryWords(old(dev.bytes), id))
  {
    hide Holds, Apply, Tracks, Accepted, SizeWords, EntryWords;
    statuses := [];
    ghost var b0, r0, size := dev.bytes, dev.registry, |dev.bytes|;
    TracksStart(dev.crc, b0, r0);
    for i := 0 to |ops|
      invariant dev.Valid() && |dev.bytes| == size && |statuses| == i && RegistryShape(dev.registry)
      invariant AllAllowed(ops[..i], size) && dev.registry == ApplyAll(r0, ops[..i], size)
      invariant forall k :: 0 <= k < i ==> statuses[k] == StatusAt(r0, ops, size, k)
      invariant Tracks(dev.crc, b0, ops[..i], statuses, dev.registry)
    {
      TracksStep(dev.crc, b0, ops[..i], statuses, dev.registry, ops[i], size);
      assert ops[..i] + [ops[i]] == ops[..i + 1];
      var rv := Execute(dev, ops[i]);
      statuses := statuses + [rv];
      assert ops[..i + 1][..i] == ops[..i] && ops[..i + 1][i] == ops[i];
    }
    assert ops[..|ops|] == ops;
    TracksEnd(dev.crc, b0, ops, statuses, dev.bytes, dev.registry);
  }

  /** Physical blocks of 512 bytes. */
  predicate Small(r: Registry) {
    r.Registry? ==> r.phys == 512
  }

  method Execute(dev: Device, op: Op) returns (rv: Status)
    requires dev.Valid() && RegistryShape(dev.registry) && Allowed(op, |dev.bytes|)
    modifies dev
    ensures dev.Valid() && (rv, dev.registry) == Apply(old(dev.registry), op) && |dev.bytes| == |old(dev.bytes)|
    ensures Small(old(dev.registry)) && (op.Init? ==> op.phys == 512) ==> Small(dev.registry) && dev.bytes[512..] == old(dev.bytes)[512..]
  {
    hide Holds;
    match op
    case Init(count, virt, phys) => rv := dev.InitHeader(count, virt, phys);
    case Deinit => rv := dev.DeinitHeader();
    case AddDevice(id, data, force) => rv := dev.AddNode(id, data, force);
    case RemDevice(id) => rv := dev.RemoveNode(id);
  }

  /** The operations that may change the entry of a present node. */
  predicate Touches(op: Op, id: int) {
    op.Init? || op.Deinit? || (op.RemDevice? && op.id == id) || (op.AddDevice? && op.id == id && op.force)
  }

  /** A present node keeps its entry: adding without force never replaces it. */
  lemma {:induction false} PresentStays(r: Registry, ops: seq<Op>, size: nat, id: nat)
    requires RegistryShape(r) && AllAllowed(ops, size) && r.Registry? && id < MAX_CLUSTER_SIZE && IsPresent(r.nodes[id])
    requires forall k :: 0 <= k < |ops| ==> !Touches(ops[k], id)
    ensures var out := ApplyAll(r, ops, size);
      out.Registry? && out.nodes[id] == r.nodes[id]
  {
    if ops != [] {
      PresentStays(r, ops[..|ops| - 1], size, id);
    }
  }

  /** Without a header every operation but eob_hdr_init ends in EOB_CHKSUM and changes nothing. */
  lemma {:induction false} NoHeaderStays(ops: seq<Op>, size: nat)
    requires AllAllowed(ops, size) && forall k :: 0 <= k < |ops| ==> !ops[k].Init?
    ensures ApplyAll(NoHeader, ops, size) == NoHeader
    ensures forall k :: 0 <= k < |ops| && !ops[k].Deinit? ==> StatusAt(NoHeader, ops, size, k) == EOB_CHKSUM
  {
    forall k | 0 <= k < |ops| ensures ApplyAll(NoHeader, ops[..k], size) == NoHeader {
      NoHeaderStays(ops[..k], size);
    }
    if ops != [] {
      NoHeaderStays(ops[..|ops| - 1], size);
    }
  }

  /** Writing a header of physical block size `phys` leaves everything behind it alone exactly when that is 512. */
  lemma HeaderWriteKeeps(phys: nat)
    requires HDR_SIZE <= phys
    ensures (forall disk: seq<Byte>, hdr: seq<Byte> :: |hdr| == HDR_SIZE && phys <= |disk| ==>
               WriteAt(disk, 0, hdr + Zeros(phys - HDR_SIZE))[HDR_SIZE..] == disk[HDR_SIZE..])
        <==> phys == HDR_SIZE
  {
    if phys == HDR_SIZE {
      forall disk: seq<Byte>, hdr: seq<Byte> | |hdr| == HDR_SIZE && phys <= |disk|
        ensures WriteAt(disk, 0, hdr + Zeros(phys - HDR_SIZE))[HDR_SIZE..] == disk[HDR_SIZE..]
      {
        WriteElsewhere(disk, 0, hdr + Zeros(0), HDR_SIZE, |disk|);
      }
    } else {
      var disk: seq<Byte> := seq(phys, i => 1);
      var hdr := Zeros(HDR_SIZE);
      assert WriteAt(disk, 0, hdr + Zeros(phys - HDR_SIZE))[HDR_SIZE..][0] == 0;
      assert disk[HDR_SIZE..][0] == 1;
    }
  }
}

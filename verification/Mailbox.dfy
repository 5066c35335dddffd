/** The mailboxes of lib/liboblock.c: behind the header every node has a slot of one virtual
    block; a message to a node overwrites its slot, and the node reads its own slot. */
module Mailbox {
  import opened Bytes
  import opened PowerOfTwo
  import opened Blocks
  import opened Header

  /** `sizeof(struct eob_hw_addr)`: the ten bytes of `idx`, rounded up to the alignment of `i_value`. */
  const ADDR_SIZE: nat := 16

  /** `sizeof(struct eob_packet_head)`. */
  const HEAD_SIZE: nat := 24

  /** `EOB_PKT_NDATA_LEN`. */
  const PKT_NDATA_LEN: nat := 32

  /** `struct eob_hw_addr`; `node_id` is its first byte. */
  type Address = a: seq<Byte> | |a| == ADDR_SIZE witness Zeros(ADDR_SIZE)

  function NodeId(a: Address): (id: Byte)
    ensures id == a[0]
  {
    a[0]
  }

  /** `eob_header_offset + EOB_HDR_SIZE + virt_blk_size * node_id`. */
  function SlotOffset(virt: nat, id: Byte): (offset: nat)
    ensures offset == 512 + virt * id
  {
    HDR_SIZE + virt * id
  }

  /** Every slot lies on the device. */
  ghost predicate RoomForSlots(size: nat, virt: nat) {
    size >= HDR_SIZE + virt * 256
  }

  lemma SlotFits(size: nat, virt: nat, id: Byte)
    requires RoomForSlots(size, virt)
    ensures HDR_SIZE <= SlotOffset(virt, id) && SlotOffset(virt, id) + virt <= size
  {
    MulGap(virt, id, 256);
  }

  lemma SlotsApart(virt: nat, a: Byte, b: Byte)
    requires a != b
    ensures SlotOffset(virt, a) + virt <= SlotOffset(virt, b) || SlotOffset(virt, b) + virt <= SlotOffset(virt, a)
  {
    if a < b { MulGap(virt, a, b); } else { MulGap(virt, b, a); }
  }

  function Slot(bytes: seq<Byte>, virt: nat, id: Byte): (s: seq<Byte>)
    requires SlotOffset(virt, id) + virt <= |bytes|
    ensures |s| == virt && s == bytes[512 + virt * id..][..virt]
  {
    bytes[SlotOffset(virt, id)..SlotOffset(virt, id) + virt]
  }

  // ---- Packets ----

  /** `struct eob_packet_512` and `eob_packet_4k`: head, data padded with zeros, tail. */
  function Packet(crc: Crc, virt: nat, src: Address, payload: seq<Byte>): (p: seq<Byte>)
    requires |payload| + PKT_NDATA_LEN <= virt
    ensures |p| == virt
  {
    src + ToBytes(8, |payload|) + payload + Zeros(virt - PKT_NDATA_LEN - |payload|) + ToBytes(8, crc(payload))
  }

  /** A message, an error code, or a failed VERIFY: the length field is zero or points outside the
      packet (`recv` then allocates nothing or reads past the packet), or the block size has no packet format. */
  datatype Received = Message(payload: seq<Byte>, src: Address) | Failed(status: Status) | Fault

  /** How eob_device_recv takes a block apart. */
  function Open(crc: Crc, virt: nat, block: seq<Byte>): Received
    requires |block| == virt
  {
    if virt != 512 && virt != 4096 && virt != 8192 then Fault
    else
      var len := FromBytes(block[ADDR_SIZE..HEAD_SIZE]);
      if len == 0 || len + PKT_NDATA_LEN > virt then Fault
      else
        var payload := block[HEAD_SIZE..HEAD_SIZE + len];
        if crc(payload) != FromBytes(block[virt - 8..]) then Failed(EOB_CHKSUM)
        else Message(payload, block[..ADDR_SIZE])
  }

  /** The fields written one after the other make the packet, whatever was in the memory before. */
  lemma PacketWrites(crc: Crc, virt: nat, src: Address, payload: seq<Byte>, was: seq<Byte>)
    requires |payload| + PKT_NDATA_LEN <= virt == |was|
    ensures var p1 := WriteAt(WriteAt(was, 0, src), ADDR_SIZE, ToBytes(8, |payload|));
      var p2 := WriteAt(WriteAt(p1, virt - 8, ToBytes(8, crc(payload))), HEAD_SIZE, Zeros(virt - PKT_NDATA_LEN));
      WriteAt(p2, HEAD_SIZE, payload) == Packet(crc, virt, src, payload)
  {
    hide ToBytes, WriteAt;
    var size, sum := ToBytes(8, |payload|), ToBytes(8, crc(payload));
    HeadWritten(was, src, size);
    TailWritten(src + size, was[HEAD_SIZE..], sum);
    BodyWritten(src + size, was[HEAD_SIZE..][..virt - PKT_NDATA_LEN], sum, payload);
  }

  lemma HeadWritten(was: seq<Byte>, src: Address, size: seq<Byte>)
    requires |size| == 8 && HEAD_SIZE <= |was|
    ensures WriteAt(WriteAt(was, 0, src), ADDR_SIZE, size) == src + size + was[HEAD_SIZE..]
  {
  }

  lemma TailWritten(head: seq<Byte>, rest: seq<Byte>, sum: seq<Byte>)
    requires |sum| == 8 <= |rest|
    ensures WriteAt(head + rest, |head + rest| - 8, sum) == head + rest[..|rest| - 8] + sum
  {
  }

  lemma BodyWritten(head: seq<Byte>, mid: seq<Byte>, sum: seq<Byte>, payload: seq<Byte>)
    requires |payload| <= |mid|
    ensures WriteAt(WriteAt(head + mid + sum, |head|, Zeros(|mid|)), |head|, payload) ==
            head + payload + Zeros(|mid| - |payload|) + sum
  {
    hide WriteAt;
    var n, z := |payload|, Zeros(|mid| - |payload|);
    WriteOver(head, mid, sum, Zeros(|mid|));
    assert Zeros(|mid|) == Zeros(n) + z;
    assert head + Zeros(|mid|) + sum == head + Zeros(n) + (z + sum);
    WriteOver(head, Zeros(n), z + sum, payload);
  }

  // ---- What is accepted, on the bytes of a block ----

  /** `block` is an undamaged packet: whatever the padding, the tail is the checksum of the payload. */
  ghost predicate IsPacket(crc: Crc, block: seq<Byte>, src: Address, payload: seq<Byte>) {
    exists padding :: Composed(crc, block, src, payload, padding)
  }

  ghost predicate Composed(crc: Crc, block: seq<Byte>, src: Address, payload: seq<Byte>, padding: seq<Byte>) {
    block == src + ToBytes(8, |payload|) + payload + padding + ToBytes(8, crc(payload))
  }

  /** Every undamaged packet is received as what it says. */
  lemma PacketOpens(crc: Crc, virt: nat, block: seq<Byte>, src: Address, payload: seq<Byte>)
    requires virt == 512 || virt == 4096 || virt == 8192
    requires |block| == virt && payload != [] && IsPacket(crc, block, src, payload)
    ensures Open(crc, virt, block) == Message(payload, src)
  {
    hide ToBytes, FromBytes;
    var padding :| Composed(crc, block, src, payload, padding);
    var n := |payload|;
    FieldSizes();
    FieldRoundTrip(8, n);
    FieldRoundTrip(8, crc(payload));
    assert block[ADDR_SIZE..HEAD_SIZE] == ToBytes(8, n);
    assert block[HEAD_SIZE..HEAD_SIZE + n] == payload;
    assert block[virt - 8..] == ToBytes(8, crc(payload));
    assert block[..ADDR_SIZE] == src;
  }

  lemma OpenPacket(crc: Crc, virt: nat, src: Address, payload: seq<Byte>)
    requires virt == 512 || virt == 4096 || virt == 8192
    requires 0 < |payload| <= virt - PKT_NDATA_LEN
    ensures Open(crc, virt, Packet(crc, virt, src, payload)) == Message(payload, src)
  {
    hide ToBytes;
    assert Composed(crc, Packet(crc, virt, src, payload), src, payload, Zeros(virt - PKT_NDATA_LEN - |payload|));
    PacketOpens(crc, virt, Packet(crc, virt, src, payload), src, payload);
  }

  lemma FiveParts(b: seq<Byte>, n: nat)
    requires 24 + n + 8 <= |b|
    ensures b == b[..16] + b[16..24] + b[24..24 + n] + b[24 + n..|b| - 8] + b[|b| - 8..]
  {
    assert b[..24] == b[..16] + b[16..24];
    assert b[..24 + n] == b[..24] + b[24..24 + n];
    assert b[..|b| - 8] == b[..24 + n] + b[24 + n..|b| - 8];
  }

  /** And nothing else is received as a message. */
  lemma MessageIsPacket(crc: Crc, virt: nat, block: seq<Byte>)
    requires |block| == virt && Open(crc, virt, block).Message?
    ensures var m := Open(crc, virt, block); m.payload != [] && IsPacket(crc, block, m.src, m.payload)
  {
    hide ToBytes, FromBytes;
    var m := Open(crc, virt, block);
    var n := |m.payload|;
    var padding := block[HEAD_SIZE + n..virt - 8];
    FieldBack(block[ADDR_SIZE..HEAD_SIZE]);
    FieldBack(block[virt - 8..]);
    FiveParts(block, n);
    assert Composed(crc, block, m.src, m.payload, padding);
  }

  /** The length is one the packet has room for, and the tail is not the checksum of the payload. */
  ghost predicate Damaged(crc: Crc, block: seq<Byte>)
    requires |block| >= 32
  {
    var len := FromBytes(block[16..24]);
    0 < len <= |block| - 32 && FromBytes(block[|block| - 8..]) != crc(block[24..24 + len])
  }

  /** The outcome of opening a block, on its bytes. */
  lemma OpenExact(crc: Crc, virt: nat, block: seq<Byte>, r: Received)
    requires virt == 512 || virt == 4096 || virt == 8192
    requires |block| == virt && r == Open(crc, virt, block)
    ensures r.Message? ==> r.payload != [] && IsPacket(crc, block, r.src, r.payload)
    ensures forall src: Address, payload: seq<Byte> ::
      payload != [] && IsPacket(crc, block, src, payload) ==> r == Message(payload, src)
    ensures r == Failed(EOB_CHKSUM) <==> Damaged(crc, block)
    ensures r.Failed? ==> r.status == EOB_CHKSUM
  {
    hide FromBytes, IsPacket;
    if r.Message? {
      MessageIsPacket(crc, virt, block);
    }
    forall src: Address, payload: seq<Byte> | payload != [] && IsPacket(crc, block, src, payload)
      ensures r == Message(payload, src)
    {
      PacketOpens(crc, virt, block, src, payload);
    }
  }

  // ---- Runs ----

  /** What happens to the device: a message, or a header update with 512-byte physical blocks. */
  datatype Event =
    | Sent(src: Address, dst: Address, payload: seq<Byte>)
    | HeaderWritten(hdr: seq<Byte>)

  predicate Possible(e: Event, virt: nat) {
    match e
    case Sent(_, _, payload) => 0 < |payload| <= virt - PKT_NDATA_LEN
    case HeaderWritten(hdr) => |hdr| == HDR_SIZE
  }

  ghost function After(crc: Crc, virt: nat, bytes: seq<Byte>, e: Event): (r: seq<Byte>)
    requires RoomForSlots(|bytes|, virt) && Possible(e, virt)
    ensures |r| == |bytes|
  {
    match e
    case Sent(src, dst, payload) =>
      SlotFits(|bytes|, virt, NodeId(dst));
      WriteAt(bytes, SlotOffset(virt, NodeId(dst)), Packet(crc, virt, src, payload))
    case HeaderWritten(hdr) => WriteAt(bytes, 0, hdr)
  }

  ghost predicate AllPossible(run: seq<Event>, virt: nat) {
    forall e <- run :: Possible(e, virt)
  }

  ghost function AfterAll(crc: Crc, virt: nat, bytes: seq<Byte>, run: seq<Event>): (r: seq<Byte>)
    requires RoomForSlots(|bytes|, virt) && AllPossible(run, virt)
    ensures |r| == |bytes|
  {
    if run == [] then bytes else After(crc, virt, AfterAll(crc, virt, bytes, run[..|run| - 1]), run[|run| - 1])
  }

  /** The last message to node `id`. */
  function LastSent(run: seq<Event>, id: Byte): Option<Event> {
    if run == [] then None
    else
      var e := run[|run| - 1];
      if e.Sent? && e.dst[0] == id then Some(e) else LastSent(run[..|run| - 1], id)
  }

  lemma AfterSlot(crc: Crc, virt: nat, bytes: seq<Byte>, e: Event, id: Byte)
    requires RoomForSlots(|bytes|, virt) && Possible(e, virt)
    ensures SlotOffset(virt, id) + virt <= |bytes|
    ensures Slot(After(crc, virt, bytes, e), virt, id) ==
            if e.Sent? && e.dst[0] == id then Packet(crc, virt, e.src, e.payload) else Slot(bytes, virt, id)
  {
    hide Packet;
    SlotFits(|bytes|, virt, id);
    var at := SlotOffset(virt, id);
    match e
    case HeaderWritten(hdr) => WriteElsewhere(bytes, 0, hdr, at, at + virt);
    case Sent(src, dst, payload) =>
      var p := Packet(crc, virt, src, payload);
      SlotFits(|bytes|, virt, NodeId(dst));
      if NodeId(dst) == id {
        WriteInside(bytes, at, p, at + virt);
        assert p + bytes[at + virt..at + virt] == p;
      } else {
        SlotsApart(virt, NodeId(dst), id);
        WriteElsewhere(bytes, SlotOffset(virt, NodeId(dst)), p, at, at + virt);
      }
  }

  /** After any run, a node's slot holds the last message to it, whoever sent it and whatever else was written. */
  lemma {:induction false} SlotHolds(crc: Crc, virt: nat, bytes: seq<Byte>, run: seq<Event>, id: Byte)
    requires RoomForSlots(|bytes|, virt) && AllPossible(run, virt)
    ensures SlotOffset(virt, id) + virt <= |bytes|
    ensures LastSent(run, id).None? ==> Slot(AfterAll(crc, virt, bytes, run), virt, id) == Slot(bytes, virt, id)
    ensures LastSent(run, id).Some? ==>
      && var e := LastSent(run, id).value;
      && e.Sent? && e.dst[0] == id && Possible(e, virt)
      && Slot(AfterAll(crc, virt, bytes, run), virt, id) == Packet(crc, virt, e.src, e.payload)
  {
    hide Slot, After, Packet;
    SlotFits(|bytes|, virt, id);
    if run != [] {
      var n := |run| - 1;
      SlotHolds(crc, virt, bytes, run[..n], id);
      AfterSlot(crc, virt, AfterAll(crc, virt, bytes, run[..n]), run[n], id);
    }
  }

  /** So receiving gives exactly that message and its sender. */
  lemma ReceivesLast(crc: Crc, virt: nat, bytes: seq<Byte>, run: seq<Event>, id: Byte)
    requires RoomForSlots(|bytes|, virt) && AllPossible(run, virt) && (virt == 512 || virt == 4096)
    requires LastSent(run, id).Some?
    ensures LastSent(run, id).value.Sent? && SlotOffset(virt, id) + virt <= |bytes|
    ensures var last := LastSent(run, id).value;
      Open(crc, virt, Slot(AfterAll(crc, virt, bytes, run), virt, id)) == Message(last.payload, last.src)
  {
    SlotHolds(crc, virt, bytes, run, id);
    var last := LastSent(run, id).value;
    OpenPacket(crc, virt, last.src, last.payload);
  }

  /** With larger physical blocks, such as the default ones, writing the header destroys the message to node 0. */
  lemma HeaderWriteWipes(crc: Crc, virt: nat, bytes: seq<Byte>, hdr: seq<Byte>, phys: nat)
    requires RoomForSlots(|bytes|, virt) && PKT_NDATA_LEN <= virt && |hdr| == HDR_SIZE && 2 * HDR_SIZE <= phys <= |bytes|
    ensures SlotOffset(virt, 0) + virt <= |bytes|
    ensures Open(crc, virt, Slot(WriteAt(bytes, 0, hdr + Zeros(phys - HDR_SIZE)), virt, 0)) == Fault
  {
    SlotFits(|bytes|, virt, 0);
    var r := WriteAt(bytes, 0, hdr + Zeros(phys - HDR_SIZE));
    var s := Slot(r, virt, 0);
    assert SlotOffset(virt, 0) == HDR_SIZE;
    assert forall i :: 0 <= i < 8 ==> s[ADDR_SIZE..HEAD_SIZE][i] == r[HDR_SIZE + ADDR_SIZE + i] == 0;
    assert s[ADDR_SIZE..HEAD_SIZE] == Zeros(8);
    ZeroField(8);
  }

  // ---- The device ----

  /** `struct eob_device`: the sizes are those of its header, `phys` being 2 to the power `k`. */
  class EobDevice {
    const addr: Address
    const disk: Device
    const virt: nat
    const phys: nat
    ghost const k: nat

    constructor (addr: Address, disk: Device, virt: nat, phys: nat, ghost k: nat)
      requires k < 64 && phys == Pow2(k) && 0 < virt <= WORD - phys && virt % phys == 0
      requires disk.Valid() && RoomForSlots(|disk.bytes|, virt)
      ensures Ready() && this.addr == addr && this.disk == disk && this.virt == virt && this.phys == phys
    {
      this.addr, this.disk, this.virt, this.phys, this.k := addr, disk, virt, phys, k;
    }

    /** The block sizes fit each other. */
    ghost predicate Sized() {
      k < 64 && phys == Pow2(k) && 0 < virt <= WORD - phys && virt % phys == 0
    }

    ghost predicate Ready()
      reads disk
    {
      Sized() && disk.Valid() && RoomForSlots(|disk.bytes|, virt)
    }

    /** `eob_device_send_raw`: one whole virtual block. */
    method SendRaw(dst: Address, d: array<Byte>)
      requires Ready() && d.Length == virt
      modifies disk`bytes
      ensures 512 + virt * dst[0] + virt <= |old(disk.bytes)|
      ensures disk.bytes == old(disk.bytes)[..512 + virt * dst[0]] + d[..] + old(disk.bytes)[512 + virt * dst[0] + virt..]
      ensures Ready()
    {
      hide Pow2, Flat, Contents, ChksumIsOk, Decision;
      SlotFits(|disk.bytes|, virt, NodeId(dst));
      var blocks := MapDataToPhys(d, phys, k);
      ghost var was := disk.bytes;
      disk.bytes := WriteAt(disk.bytes, SlotOffset(virt, NodeId(dst)), Flat(blocks));
      WriteElsewhere(was, SlotOffset(virt, NodeId(dst)), d[..], 0, HDR_SIZE);
      assert disk.bytes[..HDR_SIZE] == was[..HDR_SIZE];
    }

    /** `eob_device_recv_raw`. */
    method RecvRaw() returns (d: array<Byte>)
      requires Ready()
      ensures SlotOffset(virt, addr[0]) + virt <= |disk.bytes|
      ensures fresh(d) && d.Length == virt && d[..] == Slot(disk.bytes, virt, addr[0])
      ensures Ready()
    {
      hide Pow2, Flat, Contents, ChksumIsOk, Decision;
      SlotFits(|disk.bytes|, virt, NodeId(addr));
      var blocks := AllocPhys(virt, phys, k);
      var offset := SlotOffset(virt, NodeId(addr));
      Preadv(blocks, phys, disk.bytes[offset..offset + virt]);
      d := MapPhysToData(blocks, phys, virt);
    }

    /** `eob_device_send`. The payload has to leave room for head and tail; the code only rejects more than a whole block. */
    method Send(data: array<Byte>, dst: Address) returns (rv: Status)
      requires Ready() && (virt == 512 || virt == 4096)
      requires data.Length <= virt - PKT_NDATA_LEN || data.Length > virt
      modifies disk`bytes
      ensures Ready()
      ensures data.Length > virt ==> rv == EOB_2BIG && disk.bytes == old(disk.bytes)
      ensures 512 + virt * dst[0] + virt <= |old(disk.bytes)|
      ensures data.Length <= virt ==>
        && rv == EOB_OK
        && disk.bytes == old(disk.bytes)[..512 + virt * dst[0]]
            + (addr + ToBytes(8, data.Length) + data[..] + Zeros(virt - 32 - data.Length) + ToBytes(8, disk.crc(data[..])))
            + old(disk.bytes)[512 + virt * dst[0] + virt..]
    {
      hide Pow2, Contents, ChksumIsOk, Decision, ToBytes, WriteAt;
      SlotFits(|disk.bytes|, virt, NodeId(dst));
      if data.Length > virt {
        return EOB_2BIG;
      }
      var pkt := FillPacket(data);
      SendRaw(dst, pkt);
      rv := EOB_OK;
    }

    /** The packet, field by field. */
    method FillPacket(data: array<Byte>) returns (pkt: array<Byte>)
      requires data.Length <= virt - PKT_NDATA_LEN
      ensures fresh(pkt) && pkt.Length == virt && pkt[..] == Packet(disk.crc, virt, addr, data[..])
    {
      hide ToBytes, WriteAt, Packet;
      pkt := new Byte[virt];
      PacketWrites(disk.crc, virt, addr, data[..], pkt[..]);
      Put(pkt, 0, addr);
      Put(pkt, ADDR_SIZE, ToBytes(8, data.Length));
      Put(pkt, virt - 8, ToBytes(8, disk.crc(data[..])));
      Put(pkt, HEAD_SIZE, Zeros(virt - PKT_NDATA_LEN));
      MemCpy(pkt, HEAD_SIZE, data, 0, data.Length);
    }

    /** `eob_device_recv`. */
    method Recv() returns (r: Received)
      requires Ready()
      ensures SlotOffset(virt, addr[0]) + virt <= |disk.bytes|
      ensures r == Open(disk.crc, virt, Slot(disk.bytes, virt, addr[0]))
      ensures virt != 512 && virt != 4096 && virt != 8192 ==> r == Fault
      ensures virt == 512 || virt == 4096 || virt == 8192 ==>
        && var slot := Slot(disk.bytes, virt, addr[0]);
        && (r.Message? ==> r.payload != [] && IsPacket(disk.crc, slot, r.src, r.payload))
        && (forall src: Address, payload: seq<Byte> ::
              payload != [] && IsPacket(disk.crc, slot, src, payload) ==> r == Message(payload, src))
        && (r == Failed(EOB_CHKSUM) <==> Damaged(disk.crc, slot))
        && (r.Failed? ==> r.status == EOB_CHKSUM)
      ensures Ready()
    {
      r := TakeApart();
      if virt == 512 || virt == 4096 || virt == 8192 {
        OpenExact(disk.crc, virt, Slot(disk.bytes, virt, addr[0]), r);
      }
    }

    /** The body of `eob_device_recv`. */
    method TakeApart() returns (r: Received)
      requires Ready()
      ensures SlotOffset(virt, addr[0]) + virt <= |disk.bytes|
      ensures r == Open(disk.crc, virt, Slot(disk.bytes, virt, addr[0]))
      ensures Ready()
    {
      hide Pow2, Contents, ChksumIsOk, Decision, FromBytes;
      var d := RecvRaw();
      if virt != 512 && virt != 4096 && virt != 8192 {
        return Fault;
      }
      var len := FromBytes(d[ADDR_SIZE..HEAD_SIZE]);
      if len == 0 || len + PKT_NDATA_LEN > virt {
        return Fault;
      }
      var data := new Byte[len];
      MemCpy(data, 0, d, HEAD_SIZE, len);
      assert data[..] == d[..][HEAD_SIZE..HEAD_SIZE + len];
      if disk.crc(data[..]) != FromBytes(d[virt - 8..]) {
        return Failed(EOB_CHKSUM);
      }
      r := Message(data[..], d[..ADDR_SIZE]);
    }
  }

  // ---- Any calls by any devices on one disk ----

  /** A message sent by one of the devices, or an operation on the header. */
  datatype Call = SendTo(dev: EobDevice, dst: Address, payload: seq<Byte>) | Update(op: Op)

  ghost predicate MayCall(c: Call, disk: Device, virt: nat, size: nat) {
    match c
    case SendTo(dev, _, payload) =>
      && dev.disk == disk && dev.virt == virt && dev.Sized()
      && 0 < |payload| <= virt - PKT_NDATA_LEN
    case Update(op) => Allowed(op, size) && (op.Init? ==> op.phys == 512)
  }

  /** The last message whose destination has node id `id`. */
  function LastTo(calls: seq<Call>, id: Byte): Option<Call> {
    if calls == [] then None
    else
      var c := calls[|calls| - 1];
      if c.SendTo? && c.dst[0] == id then Some(c) else LastTo(calls[..|calls| - 1], id)
  }

  lemma SplicedSlot(bytes: seq<Byte>, virt: nat, a: Byte, p: seq<Byte>, id: Byte)
    requires RoomForSlots(|bytes|, virt) && |p| == virt
    ensures 512 + virt * a + virt <= |bytes| && SlotOffset(virt, id) + virt <= |bytes|
    ensures var now := bytes[..512 + virt * a] + p + bytes[512 + virt * a + virt..];
      |now| == |bytes| && Slot(now, virt, id) == if a == id then p else Slot(bytes, virt, id)
  {
    hide WriteAt;
    SlotFits(|bytes|, virt, a);
    SlotFits(|bytes|, virt, id);
    var at, to := SlotOffset(virt, a), SlotOffset(virt, id);
    assert WriteAt(bytes, at, p) == bytes[..at] + p + bytes[at + virt..];
    if a == id {
      WriteInside(bytes, at, p, at + virt);
      assert p + bytes[at + virt..at + virt] == p;
    } else {
      SlotsApart(virt, a, id);
      WriteElsewhere(bytes, at, p, to, to + virt);
    }
  }

  lemma SameSlots(a: seq<Byte>, b: seq<Byte>, virt: nat, id: Byte)
    requires |a| == |b| && RoomForSlots(|a|, virt) && a[512..] == b[512..]
    ensures SlotOffset(virt, id) + virt <= |a| && Slot(a, virt, id) == Slot(b, virt, id)
  {
    SlotFits(|a|, virt, id);
    var from := virt * id;
    assert a[512..][from..from + virt] == a[512 + from..512 + from + virt];
    assert b[512..][from..from + virt] == b[512 + from..512 + from + virt];
  }

  /** What the slot of node `id` holds after the calls. */
  ghost predicate SlotTells(crc: Crc, virt: nat, calls: seq<Call>, id: Byte, was: seq<Byte>, slot: seq<Byte>)
  {
    match LastTo(calls, id)
    case None => slot == was
    case Some(c) =>
      && c.SendTo? && 0 < |c.payload| <= virt - PKT_NDATA_LEN
      && slot == Packet(crc, virt, c.dev.addr, c.payload)
  }

  /** Any calls by any devices, and then one device receives: it gets the last message to its own node id, whatever the
      rest of the addresses says. Without one, its slot is as it was. */
  method CallsThenRecv(disk: Device, virt: nat, calls: seq<Call>, receiver: EobDevice) returns (r: Received)
    requires virt == 512 || virt == 4096
    requires disk.Valid() && Small(disk.registry) && RegistryShape(disk.registry) && RoomForSlots(|disk.bytes|, virt)
    requires forall k :: 0 <= k < |calls| ==> MayCall(calls[k], disk, virt, |disk.bytes|)
    requires receiver.disk == disk && receiver.virt == virt && receiver.Sized()
    modifies disk
    ensures LastTo(calls, receiver.addr[0]).Some? ==>
      && var last := LastTo(calls, receiver.addr[0]).value;
      && last.SendTo? && r == Message(last.payload, last.dev.addr)
    ensures SlotOffset(virt, receiver.addr[0]) + virt <= |disk.bytes| == |old(disk.bytes)|
    ensures LastTo(calls, receiver.addr[0]).None? ==>
      Slot(disk.bytes, virt, receiver.addr[0]) == Slot(old(disk.bytes), virt, receiver.addr[0])
  {
    hide Pow2, Holds, Packet, Open;
    ghost var id, size := receiver.addr[0], |disk.bytes|;
    SlotFits(size, virt, id);
    ghost var was := Slot(disk.bytes, virt, id);
    var i := 0;
    while i < |calls|
      invariant 0 <= i <= |calls| && disk.Valid() && Small(disk.registry) && RegistryShape(disk.registry) && |disk.bytes| == size
      invariant SlotTells(disk.crc, virt, calls[..i], id, was, Slot(disk.bytes, virt, id))
    {
      OneCall(disk, virt, calls[i], id);
      assert calls[..i + 1][..i] == calls[..i] && calls[..i + 1][i] == calls[i];
      i := i + 1;
    }
    assert calls[..|calls|] == calls;
    r := receiver.Recv();
    if LastTo(calls, id).Some? {
      var last := LastTo(calls, id).value;
      OpenPacket(disk.crc, virt, last.dev.addr, last.payload);
    }
  }

  method SendPayload(dev: EobDevice, payload: seq<Byte>, dst: Address)
    requires dev.Ready() && (dev.virt == 512 || dev.virt == 4096) && |payload| <= dev.virt - PKT_NDATA_LEN
    modifies dev.disk`bytes
    ensures 512 + dev.virt * dst[0] + dev.virt <= |old(dev.disk.bytes)|
    ensures dev.disk.bytes == old(dev.disk.bytes)[..512 + dev.virt * dst[0]]
      + Packet(dev.disk.crc, dev.virt, dev.addr, payload) + old(dev.disk.bytes)[512 + dev.virt * dst[0] + dev.virt..]
    ensures dev.Ready()
  {
    hide Pow2, Holds, ToBytes;
    var data := new Byte[|payload|](i requires 0 <= i < |payload| => payload[i]);
    assert data[..] == payload;
    var rv := dev.Send(data, dst);
  }

  /** One call: the slot of node `id` holds its message, or what it held before. */
  method OneCall(disk: Device, virt: nat, c: Call, ghost id: Byte)
    requires virt == 512 || virt == 4096
    requires disk.Valid() && Small(disk.registry) && RegistryShape(disk.registry) && RoomForSlots(|disk.bytes|, virt)
    requires MayCall(c, disk, virt, |disk.bytes|)
    modifies disk
    ensures disk.Valid() && Small(disk.registry) && RegistryShape(disk.registry) && |disk.bytes| == |old(disk.bytes)|
    ensures SlotOffset(virt, id) + virt <= |disk.bytes|
    ensures Slot(disk.bytes, virt, id) ==
            if c.SendTo? && c.dst[0] == id then Packet(disk.crc, virt, c.dev.addr, c.payload) else Slot(old(disk.bytes), virt, id)
  {
    hide Pow2, Holds, Slot, Packet, Apply;
    ghost var b := disk.bytes;
    SlotFits(|b|, virt, id);
    match c
    case SendTo(dev, dst, payload) =>
      SendPayload(dev, payload, dst);
      SplicedSlot(b, virt, dst[0], Packet(disk.crc, virt, dev.addr, payload), id);
    case Update(op) =>
      var rv := Execute(disk, op);
      SameSlots(b, disk.bytes, virt, id);
  }
}

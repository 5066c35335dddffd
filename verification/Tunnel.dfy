/** The two-node tunnel of eoblock.py: each node is three processes - one reads packets from the
    interface, one polls the node's own slot on the shared disk, one empties the queue - and
    their steps interleave freely with those of the other node. */
module Tunnel {
  import opened Bytes
  import opened Framing

  /** `32 * (1 << 10)`: the size of a slot. */
  const MAX_PKT_LEN: nat := 32768

  type Packet = seq<Byte>

  /** Node 0 is `node_id == 1`. Each receives in its own slot and sends by writing the other one. */
  type Id = i: int | 0 <= i <= 1

  function MyOffset(i: Id): nat {
    i * MAX_PKT_LEN
  }

  /** `f_offset` of node `i` is `my_offset` of the other. */
  function FOffset(i: Id): nat {
    MyOffset(1 - i)
  }

  /** The polling process: looking, holding a packet it has parsed, or about to clear its slot. */
  datatype Poller = Looking | Holding(packet: Packet) | Clearing

  /** `q` carries the events of two producers. It keeps the order of each but may interleave them in any
      way, so each producer has its own part here and the consumer takes from either. */
  datatype Node = Node(disk: seq<Packet>, iface: seq<seq<Byte>>, poller: Poller, sent: seq<Packet>, delivered: seq<Packet>)

  datatype State = State(file: seq<Byte>, nodes: map<Id, Node>)

  /** Steps of node `i`. */
  datatype Step =
    | FromIface(i: Id, packet: Packet)
    | ToDisk(i: Id)
    | Poll(i: Id)
    | Enqueue(i: Id)
    | Ack(i: Id)
    | ToIface(i: Id)

  /** The shape of a state; every frame in the queue is one that `build` made and that fits a slot. */
  ghost predicate Ok(crc: Crc, s: State) {
    && |s.file| >= 2 * MAX_PKT_LEN
    && (forall i: Id :: i in s.nodes)
    && (forall i: Id :: Framed(crc, s.nodes[i].iface))
  }

  ghost predicate IsFrame(crc: Crc, f: seq<Byte>) {
    |f| <= MAX_PKT_LEN && exists p :: f == Build(crc, p)
  }

  ghost predicate Framed(crc: Crc, q: seq<seq<Byte>>) {
    forall k :: 0 <= k < |q| ==> IsFrame(crc, q[k])
  }

  function Slot(file: seq<Byte>, i: Id): (slot: seq<Byte>)
    requires |file| >= 2 * MAX_PKT_LEN
    ensures |slot| == MAX_PKT_LEN
  {
    file[MyOffset(i)..MyOffset(i) + MAX_PKT_LEN]
  }

  /** Nothing has been sent and neither slot holds a frame. */
  ghost predicate Init(crc: Crc, s: State) {
    && Ok(crc, s)
    && forall i: Id :: s.nodes[i] == Node([], [], Looking, [], []) && Parse(crc, Slot(s.file, i)) == None
  }

  ghost predicate Enabled(crc: Crc, s: State, e: Step)
    requires Ok(crc, s)
  {
    match e
    case FromIface(_, p) => |p| + 8 <= MAX_PKT_LEN
    case ToDisk(i) => s.nodes[i].iface != []
    case Poll(i) => s.nodes[i].poller == Looking
    case Enqueue(i) => s.nodes[i].poller.Holding?
    case Ack(i) => s.nodes[i].poller == Clearing
    case ToIface(i) => s.nodes[i].disk != []
  }

  ghost function Next(crc: Crc, s: State, e: Step): State
    requires Ok(crc, s) && Enabled(crc, s, e)
  {
    var n := s.nodes[e.i];
    match e
    case FromIface(i, p) => s.(nodes := s.nodes[i := n.(iface := n.iface + [Build(crc, p)], sent := n.sent + [p])])
    case ToDisk(i) =>
      FrameFits(crc, n.iface);
      State(WriteAt(s.file, FOffset(i), n.iface[0]), s.nodes[i := n.(iface := n.iface[1..])])
    case Poll(i) =>
      var r := Parse(crc, Slot(s.file, i));
      if r == None then s else s.(nodes := s.nodes[i := n.(poller := Holding(r.value))])
    case Enqueue(i) => s.(nodes := s.nodes[i := n.(disk := n.disk + [n.poller.packet], poller := Clearing)])
    case Ack(i) => State(WriteAt(s.file, MyOffset(i), Zeros(MAX_PKT_LEN)), s.nodes[i := n.(poller := Looking)])
    case ToIface(i) => s.(nodes := s.nodes[i := n.(disk := n.disk[1..], delivered := n.delivered + [n.disk[0]])])
  }

  lemma FrameFits(crc: Crc, q: seq<seq<Byte>>)
    requires Framed(crc, q) && q != []
    ensures |q[0]| <= MAX_PKT_LEN
  {
  }

  /** The states of a run: from an initial one, every step enabled. */
  ghost predicate Run(crc: Crc, states: seq<State>, steps: seq<Step>) {
    && |states| == |steps| + 1
    && Init(crc, states[0])
    && forall k :: 0 <= k < |steps| ==> Follows(crc, states[k], steps[k], states[k + 1])
  }

  ghost predicate Follows(crc: Crc, s: State, e: Step, s': State) {
    Ok(crc, s) && Enabled(crc, s, e) && s' == Next(crc, s, e)
  }

  // ---- Subsequences ----

  /** `at` lists, in increasing order, where the members of `a` are in `b`. */
  ghost predicate Picks(a: seq<Packet>, b: seq<Packet>, at: seq<nat>) {
    && |at| == |a|
    && (forall k :: 0 <= k < |at| ==> at[k] < |b| && b[at[k]] == a[k])
    && (forall j, k :: 0 <= j < k < |at| ==> at[j] < at[k])
  }

  /** Nothing invented, nothing twice, nothing out of order. */
  ghost predicate Subsequence(a: seq<Packet>, b: seq<Packet>) {
    exists at :: Picks(a, b, at)
  }

  lemma DropMiddle(a: seq<Packet>, x: seq<Packet>, c: seq<Packet>, b: seq<Packet>)
    requires Subsequence(a + x + c, b)
    ensures Subsequence(a + c, b)
  {
    var at: seq<nat> :| Picks(a + x + c, b, at);
    var at' := at[..|a|] + at[|a| + |x|..];
    forall k | 0 <= k < |a + c| ensures b[at'[k]] == (a + c)[k] {
      assert (a + c)[k] == (a + x + c)[if k < |a| then k else k + |x|];
    }
    assert Picks(a + c, b, at');
  }

  lemma AddBoth(a: seq<Packet>, b: seq<Packet>, x: Packet)
    requires Subsequence(a, b)
    ensures Subsequence(a + [x], b + [x])
  {
    var at: seq<nat> :| Picks(a, b, at);
    var last: nat := |b|;
    var at' := at + [last];
    assert Picks(a + [x], b + [x], at');
  }

  lemma AddRight(a: seq<Packet>, b: seq<Packet>, x: Packet)
    requires Subsequence(a, b)
    ensures Subsequence(a, b + [x])
  {
    var at: seq<nat> :| Picks(a, b, at);
    assert Picks(a, b + [x], at);
  }

  // ---- The packets on their way from one node to the other ----

  function Content(crc: Crc, data: seq<Byte>): seq<Packet> {
    var r := Parse(crc, data);
    if r == None then [] else [r.value]
  }

  function Contents(crc: Crc, q: seq<seq<Byte>>): seq<Packet> {
    if q == [] then [] else Content(crc, q[0]) + Contents(crc, q[1..])
  }

  /** What the receiver has already taken from its slot. */
  function Taken(n: Node): seq<Packet> {
    n.delivered + n.disk + (if n.poller.Holding? then [n.poller.packet] else [])
  }

  /** What the receiver can still take from its slot: nothing, if it is going to clear it first. */
  function Waiting(crc: Crc, file: seq<Byte>, i: Id, poller: Poller): seq<Packet>
    requires |file| >= 2 * MAX_PKT_LEN
  {
    if poller.Looking? then Content(crc, Slot(file, i)) else []
  }

  /** The packets delivered to node `i` and those on their way to it, oldest first. */
  ghost function Stream(crc: Crc, s: State, i: Id): seq<Packet>
    requires Ok(crc, s)
  {
    Taken(s.nodes[i]) + Waiting(crc, s.file, i, s.nodes[i].poller) + Contents(crc, s.nodes[1 - i].iface)
  }

  // ---- What each step does to the stream ----

  /** The step hands on a packet that will never arrive: it was empty, it overwrites a packet
      that was not read, or it is written just before the slot is cleared. */
  ghost predicate Loses(crc: Crc, s: State, e: Step)
    requires Ok(crc, s) && Enabled(crc, s, e)
  {
    match e
    case FromIface(_, p) => p == []
    case ToDisk(i) =>
      if s.nodes[1 - i].poller.Looking? then Content(crc, Slot(s.file, 1 - i)) != []
      else Content(crc, s.nodes[i].iface[0]) != []
    case _ => false
  }

  lemma ContentFrame(crc: Crc, p: Packet, suffix: seq<Byte>)
    requires |p| < MASKED
    ensures Content(crc, Build(crc, p) + suffix) == if p == [] then [] else [p]
  {
    ParseBuild(crc, p, suffix);
  }

  lemma {:induction false} ContentsAdd(crc: Crc, q: seq<seq<Byte>>, f: seq<Byte>)
    ensures Contents(crc, q + [f]) == Contents(crc, q) + Content(crc, f)
  {
    if q != [] {
      assert (q + [f])[1..] == q[1..] + [f];
      ContentsAdd(crc, q[1..], f);
    }
  }

  /** What a slot holds after a frame has been written over it. */
  lemma SlotWritten(crc: Crc, file: seq<Byte>, i: Id, f: seq<Byte>)
    requires |file| >= 2 * MAX_PKT_LEN && IsFrame(crc, f)
    ensures var file' := WriteAt(file, MyOffset(i), f);
      && Content(crc, Slot(file', i)) == Content(crc, f)
      && Slot(file', 1 - i) == Slot(file, 1 - i)
  {
    hide WriteAt, Content, Build;
    var p :| f == Build(crc, p);
    var at := MyOffset(i);
    WriteInside(file, at, f, at + MAX_PKT_LEN);
    ContentFrame(crc, p, file[at + |f|..at + MAX_PKT_LEN]);
    ContentFrame(crc, p, []);
    assert f + [] == f;
    WriteElsewhere(file, at, f, MyOffset(1 - i), MyOffset(1 - i) + MAX_PKT_LEN);
  }

  lemma SlotCleared(crc: Crc, file: seq<Byte>, i: Id)
    requires |file| >= 2 * MAX_PKT_LEN
    ensures var file' := WriteAt(file, MyOffset(i), Zeros(MAX_PKT_LEN));
      && Content(crc, Slot(file', i)) == []
      && Slot(file', 1 - i) == Slot(file, 1 - i)
  {
    hide WriteAt, Parse;
    var at := MyOffset(i);
    WriteInside(file, at, Zeros(MAX_PKT_LEN), at + MAX_PKT_LEN);
    assert Slot(WriteAt(file, at, Zeros(MAX_PKT_LEN)), i) == Zeros(MAX_PKT_LEN);
    ParseZeros(crc, MAX_PKT_LEN);
    WriteElsewhere(file, at, Zeros(MAX_PKT_LEN), MyOffset(1 - i), MyOffset(1 - i) + MAX_PKT_LEN);
  }

  lemma NextOk(crc: Crc, s: State, e: Step)
    requires Ok(crc, s) && Enabled(crc, s, e)
    ensures Ok(crc, Next(crc, s, e))
  {
    hide Build, WriteAt, Parse;
    if e.FromIface? {
      assert IsFrame(crc, Build(crc, e.packet));
    }
    if e.ToDisk? {
      FrameFits(crc, s.nodes[e.i].iface);
    }
  }

  /** The receiver moves a packet from its slot towards its interface. */
  lemma Receives(crc: Crc, s: State, e: Step)
    requires Ok(crc, s) && Enabled(crc, s, e) && Ok(crc, Next(crc, s, e))
    requires e.Poll? || e.Enqueue? || e.ToIface?
    ensures Stream(crc, Next(crc, s, e), e.i) == Stream(crc, s, e.i)
    ensures Next(crc, s, e).nodes[1 - e.i] == s.nodes[1 - e.i]
  {
    hide Build, WriteAt, Parse, Slot, Contents, IsFrame;
    var n, n' := s.nodes[e.i], Next(crc, s, e).nodes[e.i];
    var w := Content(crc, Slot(s.file, e.i));
    match e
    case Enqueue(_) => assert Taken(n') == Taken(n);
    case ToIface(_) => assert n.disk == [n.disk[0]] + n.disk[1..] && Taken(n') == Taken(n);
    case Poll(_) => assert Taken(n') + (if n'.poller.Looking? then w else []) == Taken(n) + w;
  }

  /** All other steps leave the packets for node `i` where they are. */
  lemma Elsewhere(crc: Crc, s: State, e: Step, i: Id)
    requires Ok(crc, s) && Enabled(crc, s, e) && Ok(crc, Next(crc, s, e))
    requires if e.i == i then e.FromIface? || e.ToDisk? || e.Ack? else !e.FromIface? && !e.ToDisk?
    ensures Stream(crc, Next(crc, s, e), i) == Stream(crc, s, i)
    ensures Next(crc, s, e).nodes[1 - i].sent == s.nodes[1 - i].sent
  {
    hide Build, WriteAt, Parse, Slot, Contents, IsFrame, Content;
    match e
    case ToDisk(j) => SlotWritten(crc, s.file, 1 - j, s.nodes[j].iface[0]);
    case Ack(j) => SlotCleared(crc, s.file, j);
    case _ =>
  }

  /** The sender takes a packet from its interface. */
  lemma Sends(crc: Crc, s: State, e: Step, i: Id)
    requires Ok(crc, s) && Enabled(crc, s, e) && Ok(crc, Next(crc, s, e))
    requires e.i == 1 - i && e.FromIface?
    ensures Stream(crc, Next(crc, s, e), i) == Stream(crc, s, i) + (if Loses(crc, s, e) then [] else [e.packet])
    ensures Next(crc, s, e).nodes[1 - i].sent == s.nodes[1 - i].sent + [e.packet]
  {
    hide Build, WriteAt, Parse, Slot, Content, Waiting, Taken, IsFrame;
    var f := Build(crc, e.packet);
    ContentFrame(crc, e.packet, []);
    assert f + [] == f;
    ContentsAdd(crc, s.nodes[1 - i].iface, f);
  }

  /** The sender writes a frame to the receiver's slot. */
  lemma Writes(crc: Crc, s: State, e: Step, i: Id) returns (a: seq<Packet>, lost: seq<Packet>, c: seq<Packet>)
    requires Ok(crc, s) && Enabled(crc, s, e) && Ok(crc, Next(crc, s, e))
    requires e.i == 1 - i && e.ToDisk?
    ensures Stream(crc, s, i) == a + lost + c && Stream(crc, Next(crc, s, e), i) == a + c
    ensures |lost| == if Loses(crc, s, e) then 1 else 0
    ensures Next(crc, s, e).nodes[1 - i].sent == s.nodes[1 - i].sent
  {
    hide Build, WriteAt, Parse, Slot, Taken, IsFrame;
    var n, q := s.nodes[i], s.nodes[1 - i].iface;
    var f := Content(crc, q[0]);
    SlotWritten(crc, s.file, i, q[0]);
    assert Contents(crc, q) == f + Contents(crc, q[1..]);
    if n.poller.Looking? {
      a, lost, c := Taken(n), Content(crc, Slot(s.file, i)), f + Contents(crc, q[1..]);
    } else {
      a, lost, c := Taken(n), f, Contents(crc, q[1..]);
    }
  }

  // ---- Whole runs ----

  /** How many of the first `k` steps lost a packet for node `i`. */
  ghost function Losses(crc: Crc, states: seq<State>, steps: seq<Step>, i: Id, k: nat): nat
    requires Run(crc, states, steps) && k <= |steps|
  {
    if k == 0 then 0
    else
      assert Follows(crc, states[k - 1], steps[k - 1], states[k]);
      Losses(crc, states, steps, i, k - 1) + (if steps[k - 1].i == 1 - i && Loses(crc, states[k - 1], steps[k - 1]) then 1 else 0)
  }

  /** One step, seen from receiver `i`: order is kept, and every packet is on its way or counted as lost. */
  lemma StepKeeps(crc: Crc, s: State, e: Step, s': State, i: Id)
    requires Follows(crc, s, e, s')
    requires Subsequence(Stream(crc, s, i), s.nodes[1 - i].sent)
    ensures Ok(crc, s') && Subsequence(Stream(crc, s', i), s'.nodes[1 - i].sent)
    ensures |s'.nodes[1 - i].sent| - |Stream(crc, s', i)| ==
            |s.nodes[1 - i].sent| - |Stream(crc, s, i)| + (if e.i == 1 - i && Loses(crc, s, e) then 1 else 0)
  {
    hide Stream, Next, Enabled, Subsequence, Loses, IsFrame;
    NextOk(crc, s, e);
    if e.i == i && (e.Poll? || e.Enqueue? || e.ToIface?) {
      Receives(crc, s, e);
    } else if e.i == 1 - i && e.FromIface? {
      Sends(crc, s, e, i);
      AddBoth(Stream(crc, s, i), s.nodes[1 - i].sent, e.packet);
      AddRight(Stream(crc, s, i), s.nodes[1 - i].sent, e.packet);
      assert Stream(crc, s, i) + [] == Stream(crc, s, i);
    } else if e.i == 1 - i && e.ToDisk? {
      var a, lost, c := Writes(crc, s, e, i);
      DropMiddle(a, lost, c, s.nodes[1 - i].sent);
    } else {
      Elsewhere(crc, s, e, i);
      assert !(e.i == 1 - i && Loses(crc, s, e)) by { LosesOnly(crc, s, e); }
    }
  }

  lemma LosesOnly(crc: Crc, s: State, e: Step)
    requires Ok(crc, s) && Enabled(crc, s, e)
    ensures Loses(crc, s, e) ==> e.FromIface? || e.ToDisk?
  {
  }

  lemma {:induction false} RunKeeps(crc: Crc, states: seq<State>, steps: seq<Step>, i: Id, k: nat)
    requires Run(crc, states, steps) && k <= |steps|
    ensures Ok(crc, states[k]) && Subsequence(Stream(crc, states[k], i), states[k].nodes[1 - i].sent)
    ensures |Stream(crc, states[k], i)| + Losses(crc, states, steps, i, k) == |states[k].nodes[1 - i].sent|
  {
    hide Stream, Ok, Loses, Next, Enabled;
    if k == 0 {
      InitStream(crc, states[0], i);
    } else {
      RunKeeps(crc, states, steps, i, k - 1);
      StepKeeps(crc, states[k - 1], steps[k - 1], states[k], i);
    }
  }

  lemma InitStream(crc: Crc, s: State, i: Id)
    requires Init(crc, s)
    ensures Ok(crc, s) && Stream(crc, s, i) == [] && s.nodes[1 - i].sent == [] && Subsequence([], [])
  {
    var at: seq<nat> := [];
    assert Picks([], [], at);
  }

  /** In every reachable state, what node `i` has delivered is an in-order selection of what the other sent. */
  lemma DeliveredInOrder(crc: Crc, states: seq<State>, steps: seq<Step>, i: Id)
    requires Run(crc, states, steps)
    ensures i in states[|steps|].nodes && 1 - i in states[|steps|].nodes
    ensures Subsequence(states[|steps|].nodes[i].delivered, states[|steps|].nodes[1 - i].sent)
  {
    hide Init, Follows, Subsequence, IsFrame, Waiting, Contents;
    var s := states[|steps|];
    RunKeeps(crc, states, steps, i, |steps|);
    var rest := Stream(crc, s, i)[|s.nodes[i].delivered|..];
    assert Stream(crc, s, i) == s.nodes[i].delivered + rest + [];
    DropMiddle(s.nodes[i].delivered, rest, [], s.nodes[1 - i].sent);
    assert s.nodes[i].delivered + [] == s.nodes[i].delivered;
  }

  lemma {:induction false} PicksFrom(a: seq<Packet>, b: seq<Packet>, at: seq<nat>, k: nat)
    requires Picks(a, b, at) && k < |a|
    ensures k <= at[k] <= |b| - (|a| - k)
    decreases |a| - k
  {
    if k + 1 < |a| {
      PicksFrom(a, b, at, k + 1);
    }
    PicksAbove(a, b, at, k);
  }

  lemma {:induction false} PicksAbove(a: seq<Packet>, b: seq<Packet>, at: seq<nat>, k: nat)
    requires Picks(a, b, at) && k < |a|
    ensures k <= at[k]
  {
    if k > 0 {
      PicksAbove(a, b, at, k - 1);
    }
  }

  lemma AllPicked(a: seq<Packet>, b: seq<Packet>)
    requires Subsequence(a, b) && |a| == |b|
    ensures a == b
  {
    var at: seq<nat> :| Picks(a, b, at);
    forall k | 0 <= k < |a| ensures a[k] == b[k] {
      PicksFrom(a, b, at, k);
    }
  }

  /** A run without losses delivers everything: nothing is missing but what is still on its way. */
  lemma NothingLost(crc: Crc, states: seq<State>, steps: seq<Step>, i: Id)
    requires Run(crc, states, steps)
    ensures Ok(crc, states[|steps|])
    ensures Losses(crc, states, steps, i, |steps|) == 0 <==> Stream(crc, states[|steps|], i) == states[|steps|].nodes[1 - i].sent
  {
    hide Stream, Subsequence, Init, Follows, Losses, IsFrame;
    var s := states[|steps|];
    RunKeeps(crc, states, steps, i, |steps|);
    var a, b := Stream(crc, s, i), s.nodes[1 - i].sent;
    if |a| == |b| {
      AllPicked(a, b);
    }
  }

  lemma ZeroSlot(crc: Crc, i: Id)
    ensures Parse(crc, Slot(Zeros(2 * MAX_PKT_LEN), i)) == None
  {
    assert Slot(Zeros(2 * MAX_PKT_LEN), i) == Zeros(MAX_PKT_LEN);
    ParseZeros(crc, MAX_PKT_LEN);
  }

  /** Node 0 sends one packet, and its frame is written at once. */
  lemma SendOne(crc: Crc, s: State, p: Packet) returns (m: State, s': State)
    requires Ok(crc, s) && 0 < |p| <= MAX_PKT_LEN - 8 && s.nodes[0].iface == [] && s.nodes[1].poller == Looking
    ensures Follows(crc, s, FromIface(0, p), m) && Follows(crc, m, ToDisk(0), s') && Ok(crc, s')
    ensures s'.nodes[0].iface == [] && s'.nodes[0].sent == s.nodes[0].sent + [p] && s'.nodes[1] == s.nodes[1]
    ensures Stream(crc, s', 1) == Taken(s.nodes[1]) + [p]
  {
    hide Parse, Build, WriteAt, Slot, Content, Taken, IsFrame;
    var f := Build(crc, p);
    NextOk(crc, s, FromIface(0, p));
    m := Next(crc, s, FromIface(0, p));
    assert m.nodes[0].iface == [f] && m.file == s.file;
    NextOk(crc, m, ToDisk(0));
    s' := Next(crc, m, ToDisk(0));
    SlotWritten(crc, m.file, 1, f);
    ContentFrame(crc, p, []);
    assert f + [] == f;
    assert Waiting(crc, s'.file, 1, Looking) == [p] && Contents(crc, []) == [];
  }

  /** Losses do happen: a second frame written before the first was polled replaces it. */
  lemma Overwritten(crc: Crc, p: Packet, q: Packet) returns (states: seq<State>, steps: seq<Step>)
    requires 0 < |p| <= MAX_PKT_LEN - 8 && 0 < |q| <= MAX_PKT_LEN - 8
    ensures Run(crc, states, steps) && Losses(crc, states, steps, 1, |steps|) == 1
    ensures states[|steps|].nodes[0].sent == [p, q] && Stream(crc, states[|steps|], 1) == [q]
  {
    hide Parse, Slot, Content, Losses, Follows, Stream;
    var idle := Node([], [], Looking, [], []);
    var s0 := State(Zeros(2 * MAX_PKT_LEN), map[0 := idle, 1 := idle]);
    ZeroSlot(crc, 0);
    ZeroSlot(crc, 1);
    var s1, s2 := SendOne(crc, s0, p);
    var s3, s4 := SendOne(crc, s2, q);
    states, steps := [s0, s1, s2, s3, s4], [FromIface(0, p), ToDisk(0), FromIface(0, q), ToDisk(0)];
    RunKeeps(crc, states, steps, 1, 4);
  }

  // ---- The code of one node ----

  /** The shared file; on a block device, opening it changes nothing. */
  class BlockDevice {
    var bytes: seq<Byte>
  }

  /** The parts of `FTunnel` that touch the file, against the steps above. */
  class FTunnel {
    const crc: Crc
    const id: Id
    const file: BlockDevice

    constructor (crc: Crc, nodeId: int, file: BlockDevice)
      requires nodeId == 1 || nodeId == 2
      ensures this.crc == crc && this.file == file && id == nodeId - 1
    {
      this.crc, this.file := crc, file;
      id := nodeId - 1;
    }

    /** The reading part of `loop_gen_disk_events`: 512 bytes at a time, until a frame parses. */
    method ReadOwnSlot() returns (pkt: Option<Packet>)
      requires |file.bytes| >= 2 * MAX_PKT_LEN
      ensures |file.bytes| >= 2 * MAX_PKT_LEN
      ensures pkt == Parse(crc, Slot(file.bytes, id)) == Parse(crc, file.bytes[id * 32768..id * 32768 + 32768])
    {
      hide Parse;
      ghost var slot := Slot(file.bytes, id);
      var d: seq<Byte> := [];
      pkt := None;
      while |d| < MAX_PKT_LEN
        invariant |d| <= MAX_PKT_LEN && |d| % 512 == 0 && d == slot[..|d|]
        invariant d != [] ==> pkt == None && Parse(crc, d) == None
        decreases MAX_PKT_LEN - |d|
      {
        var at := MyOffset(id) + |d|;
        SliceGrow(file.bytes, MyOffset(id), MyOffset(id) + MAX_PKT_LEN, |d|, 512);
        d := d + file.bytes[at..at + 512];
        pkt := Parse(crc, d);
        if pkt != None {
          ParseStable(crc, d, slot[|d|..]);
          assert slot == d + slot[|d|..];
          break;
        }
      }
      assert |d| == MAX_PKT_LEN ==> d == slot;
    }

    /** `__write_ack`. */
    method WriteAck()
      requires |file.bytes| >= 2 * MAX_PKT_LEN
      modifies file
      ensures |file.bytes| == old(|file.bytes|)
      ensures Parse(crc, Slot(file.bytes, id)) == None && file.bytes[id * 32768..id * 32768 + 32768] == Zeros(32768)
      ensures Slot(file.bytes, 1 - id) == old(Slot(file.bytes, 1 - id))
      ensures file.bytes == WriteAt(old(file.bytes), MyOffset(id), Zeros(MAX_PKT_LEN))
    {
      hide Parse;
      SlotCleared(crc, file.bytes, id);
      file.bytes := WriteAt(file.bytes, MyOffset(id), Zeros(MAX_PKT_LEN));
    }

    /** The `iface` branch of `main_loop`: the frame is written over the start of the other node's slot. */
    method WritePeerSlot(packet: seq<Byte>)
      requires |file.bytes| >= 2 * MAX_PKT_LEN && IsFrame(crc, packet)
      modifies file
      ensures |file.bytes| == old(|file.bytes|)
      ensures Parse(crc, Slot(file.bytes, 1 - id)) == Parse(crc, packet)
      ensures file.bytes[(1 - id) * 32768..(1 - id) * 32768 + |packet|] == packet
      ensures Slot(file.bytes, id) == old(Slot(file.bytes, id))
      ensures file.bytes == WriteAt(old(file.bytes), FOffset(id), packet)
    {
      hide Parse;
      SlotWritten(crc, file.bytes, 1 - id, packet);
      file.bytes := WriteAt(file.bytes, FOffset(id), packet);
    }
  }
}

/** Delivery in the tunnel of eoblock.py: whatever has happened, the nodes can go on without losing
    anything more until every packet that is still on its way has reached its interface. */
module TunnelDelivery {
  import opened Bytes
  import opened Framing
  import opened Tunnel

  /** Steps that can be taken one after the other, none of which sends or loses a packet. */
  ghost predicate Path(crc: Crc, states: seq<State>, steps: seq<Step>) {
    && |states| == |steps| + 1
    && forall k :: 0 <= k < |steps| ==> Handles(crc, states[k], steps[k], states[k + 1])
  }

  ghost predicate Handles(crc: Crc, s: State, e: Step, s': State) {
    Follows(crc, s, e, s') && !e.FromIface? && !Loses(crc, s, e)
  }

  /** Where a path ends. */
  ghost predicate Leads(crc: Crc, s: State, states: seq<State>, steps: seq<Step>, s': State) {
    Path(crc, states, steps) && states[0] == s && states[|steps|] == s'
  }

  lemma Stay(crc: Crc, s: State)
    ensures Leads(crc, s, [s], [], s)
  {
  }

  lemma Then(crc: Crc, s: State, states: seq<State>, steps: seq<Step>, s': State, e: Step, s'': State)
    requires Leads(crc, s, states, steps, s') && Handles(crc, s', e, s'')
    ensures Leads(crc, s, states + [s''], steps + [e], s'')
  {
    hide Handles;
    var all, es := states + [s''], steps + [e];
    forall k | 0 <= k < |es| ensures Handles(crc, all[k], es[k], all[k + 1]) {
      if k < |steps| {
        assert Handles(crc, states[k], steps[k], states[k + 1]);
      }
    }
  }

  // ---- One turn of the polling process ----

  /** A frame found in the slot is parsed, queued and acknowledged: the queue gains exactly its packet,
      and the slot is free again. */
  lemma Turn(crc: Crc, s: State, i: Id, p: Packet) returns (s1: State, s2: State, s3: State)
    requires Ok(crc, s) && s.nodes[i].poller == Looking && Parse(crc, Slot(s.file, i)) == Some(p)
    ensures Handles(crc, s, Poll(i), s1) && Handles(crc, s1, Enqueue(i), s2) && Handles(crc, s2, Ack(i), s3)
    ensures Ok(crc, s3)
    ensures s3.nodes[i] == s.nodes[i].(disk := s.nodes[i].disk + [p]) && s3.nodes[1 - i] == s.nodes[1 - i]
    ensures Parse(crc, Slot(s3.file, i)) == None && Slot(s3.file, 1 - i) == Slot(s.file, 1 - i)
  {
    hide Parse, Slot, WriteAt, IsFrame, Content;
    NextOk(crc, s, Poll(i));
    s1 := Next(crc, s, Poll(i));
    NextOk(crc, s1, Enqueue(i));
    s2 := Next(crc, s1, Enqueue(i));
    s3 := CleanUp(crc, s2, i);
  }

  /** The acknowledgement clears the slot. */
  lemma CleanUp(crc: Crc, s: State, i: Id) returns (s': State)
    requires Ok(crc, s) && s.nodes[i].poller == Clearing
    ensures Handles(crc, s, Ack(i), s') && Ok(crc, s')
    ensures s'.nodes[i] == s.nodes[i].(poller := Looking) && s'.nodes[1 - i] == s.nodes[1 - i]
    ensures Parse(crc, Slot(s'.file, i)) == None && Slot(s'.file, 1 - i) == Slot(s.file, 1 - i)
  {
    hide Parse, Slot, WriteAt, IsFrame;
    NextOk(crc, s, Ack(i));
    s' := Next(crc, s, Ack(i));
    SlotCleared(crc, s.file, i);
  }

  // ---- Emptying one direction ----

  /** Node `i` is looking at an empty slot. */
  ghost predicate Free(crc: Crc, s: State, i: Id) {
    Ok(crc, s) && s.nodes[i].poller == Looking && Parse(crc, Slot(s.file, i)) == None
  }

  lemma TakeTurn(crc: Crc, s: State, states: seq<State>, steps: seq<Step>, c: State, i: Id)
    returns (states': seq<State>, steps': seq<Step>, c': State)
    requires Leads(crc, s, states, steps, c)
    requires Ok(crc, c) && c.nodes[i].poller == Looking
    ensures Leads(crc, s, states', steps', c')
    ensures Free(crc, c', i) && c'.nodes[1 - i] == c.nodes[1 - i]
  {
    hide Parse, Slot, Leads, Handles, Framed;
    var r := Parse(crc, Slot(c.file, i));
    if r == None {
      states', steps', c' := states, steps, c;
    } else {
      var c1, c2, c3 := Turn(crc, c, i, r.value);
      Then(crc, s, states, steps, c, Poll(i), c1);
      Then(crc, s, states + [c1], steps + [Poll(i)], c1, Enqueue(i), c2);
      Then(crc, s, states + [c1] + [c2], steps + [Poll(i)] + [Enqueue(i)], c2, Ack(i), c3);
      states', steps' := states + [c1] + [c2] + [c3], steps + [Poll(i)] + [Enqueue(i)] + [Ack(i)];
      c' := c3;
    }
  }

  /** The polling process finishes what it has begun and frees its slot. */
  lemma FreeSlot(crc: Crc, s: State, states: seq<State>, steps: seq<Step>, c: State, i: Id)
    returns (states': seq<State>, steps': seq<Step>, c': State)
    requires Leads(crc, s, states, steps, c) && Ok(crc, c)
    ensures Leads(crc, s, states', steps', c')
    ensures Free(crc, c', i) && c'.nodes[1 - i] == c.nodes[1 - i]
  {
    hide Parse, Slot, Leads, Framed, WriteAt;
    states', steps', c' := states, steps, c;
    if c'.nodes[i].poller.Holding? {
      var q := Next(crc, c', Enqueue(i));
      NextOk(crc, c', Enqueue(i));
      Then(crc, s, states', steps', c', Enqueue(i), q);
      states', steps', c' := states' + [q], steps' + [Enqueue(i)], q;
    }
    if c'.nodes[i].poller == Clearing {
      var q := CleanUp(crc, c', i);
      Then(crc, s, states', steps', c', Ack(i), q);
      states', steps', c' := states' + [q], steps' + [Ack(i)], q;
    } else {
      states', steps', c' := TakeTurn(crc, s, states', steps', c', i);
    }
  }

  /** The other node writes its next frame into the free slot. */
  lemma NextFrame(crc: Crc, c: State, i: Id) returns (c': State)
    requires Free(crc, c, i) && c.nodes[1 - i].iface != []
    ensures Handles(crc, c, ToDisk(1 - i), c') && Ok(crc, c')
    ensures c'.nodes[i] == c.nodes[i] && c'.nodes[1 - i].iface == c.nodes[1 - i].iface[1..]
  {
    hide Parse, Slot, WriteAt, IsFrame;
    NextOk(crc, c, ToDisk(1 - i));
    c' := Next(crc, c, ToDisk(1 - i));
  }

  /** One after the other, all frames go through the slot. */
  lemma MoveFrames(crc: Crc, s: State, states: seq<State>, steps: seq<Step>, c: State, i: Id)
    returns (states': seq<State>, steps': seq<Step>, c': State)
    requires Leads(crc, s, states, steps, c) && Free(crc, c, i)
    ensures Leads(crc, s, states', steps', c')
    ensures Free(crc, c', i) && c'.nodes[1 - i].iface == []
    decreases |c.nodes[1 - i].iface|
  {
    hide Parse, Slot, Leads, Framed, Handles;
    states', steps', c' := states, steps, c;
    if c.nodes[1 - i].iface != [] {
      var q := NextFrame(crc, c, i);
      Then(crc, s, states, steps, c, ToDisk(1 - i), q);
      states', steps', c' := TakeTurn(crc, s, states + [q], steps + [ToDisk(1 - i)], q, i);
      states', steps', c' := MoveFrames(crc, s, states', steps', c', i);
    }
  }

  /** Nothing is on its way to node `i`. */
  ghost predicate Drained(crc: Crc, s: State, i: Id) {
    Free(crc, s, i) && s.nodes[i].disk == [] && s.nodes[1 - i].iface == []
  }

  lemma HandOverOne(crc: Crc, c: State, i: Id) returns (c': State)
    requires Ok(crc, c) && c.nodes[i].disk != []
    ensures Handles(crc, c, ToIface(i), c') && Ok(crc, c')
    ensures c'.file == c.file && c'.nodes[1 - i] == c.nodes[1 - i]
    ensures c'.nodes[i].disk == c.nodes[i].disk[1..] && c'.nodes[i].poller == c.nodes[i].poller
  {
    hide Parse, Slot, WriteAt, IsFrame;
    NextOk(crc, c, ToIface(i));
    c' := Next(crc, c, ToIface(i));
  }

  /** The queue is emptied into the interface. */
  lemma HandOver(crc: Crc, s: State, states: seq<State>, steps: seq<Step>, c: State, i: Id)
    returns (states': seq<State>, steps': seq<Step>, c': State)
    requires Leads(crc, s, states, steps, c) && Free(crc, c, i) && c.nodes[1 - i].iface == []
    ensures Leads(crc, s, states', steps', c') && Drained(crc, c', i)
    decreases |c.nodes[i].disk|
  {
    hide Parse, Slot, Leads, Framed, Handles;
    states', steps', c' := states, steps, c;
    if c.nodes[i].disk != [] {
      var q := HandOverOne(crc, c, i);
      Then(crc, s, states, steps, c, ToIface(i), q);
      states', steps', c' := HandOver(crc, s, states + [q], steps + [ToIface(i)], q, i);
    }
  }

  lemma Drain(crc: Crc, s: State, states: seq<State>, steps: seq<Step>, c: State, i: Id)
    returns (states': seq<State>, steps': seq<Step>, c': State)
    requires Leads(crc, s, states, steps, c) && Ok(crc, c)
    ensures Leads(crc, s, states', steps', c') && Drained(crc, c', i)
  {
    hide Leads, Free, Drained, Ok;
    states', steps', c' := FreeSlot(crc, s, states, steps, c, i);
    states', steps', c' := MoveFrames(crc, s, states', steps', c', i);
    assert Ok(crc, c') by { FreeOk(crc, c', i); }
    states', steps', c' := HandOver(crc, s, states', steps', c', i);
  }

  lemma FreeOk(crc: Crc, s: State, i: Id)
    requires Free(crc, s, i)
    ensures Ok(crc, s)
  {
  }

  // ---- What a path keeps ----

  /** Handling packets without loss leaves every stream as it is, and takes back no delivery. */
  lemma HandlesKeeps(crc: Crc, s: State, e: Step, s': State, i: Id)
    requires Handles(crc, s, e, s')
    ensures Ok(crc, s) && Ok(crc, s')
    ensures Stream(crc, s', i) == Stream(crc, s, i) && s.nodes[i].delivered <= s'.nodes[i].delivered
    ensures s'.nodes[1 - i].sent == s.nodes[1 - i].sent
  {
    hide Stream, Next, Enabled, Loses, IsFrame;
    NextOk(crc, s, e);
    DeliveryGrows(crc, s, e, i);
    if e.i == i && (e.Poll? || e.Enqueue? || e.ToIface?) {
      Receives(crc, s, e);
    } else if e.i == 1 - i && e.ToDisk? {
      var a, lost, c := Writes(crc, s, e, i);
      assert lost == [] && a + lost + c == a + c;
    } else {
      Elsewhere(crc, s, e, i);
    }
  }

  lemma DeliveryGrows(crc: Crc, s: State, e: Step, i: Id)
    requires Ok(crc, s) && Enabled(crc, s, e)
    ensures i in Next(crc, s, e).nodes && s.nodes[i].delivered <= Next(crc, s, e).nodes[i].delivered
  {
    hide Parse, Slot, WriteAt, IsFrame, Build;
  }

  lemma {:induction false} PathKeeps(crc: Crc, states: seq<State>, steps: seq<Step>, i: Id, k: nat)
    requires Path(crc, states, steps) && k <= |steps| && Ok(crc, states[0])
    ensures Ok(crc, states[k]) && Stream(crc, states[k], i) == Stream(crc, states[0], i)
    ensures states[0].nodes[i].delivered <= states[k].nodes[i].delivered
    ensures states[k].nodes[1 - i].sent == states[0].nodes[1 - i].sent
  {
    hide Handles, Stream, IsFrame;
    if k > 0 {
      PathKeeps(crc, states, steps, i, k - 1);
      HandlesKeeps(crc, states[k - 1], steps[k - 1], states[k], i);
    }
  }

  /** When nothing is on its way, everything has been delivered. */
  lemma DrainedStream(crc: Crc, s: State, i: Id)
    requires Drained(crc, s, i)
    ensures Ok(crc, s) && s.nodes[i].delivered == Stream(crc, s, i)
  {
    hide Parse, Slot, IsFrame;
    assert Contents(crc, []) == [];
  }

  lemma DeliveredPart(crc: Crc, s: State, i: Id)
    requires Ok(crc, s)
    ensures s.nodes[i].delivered <= Stream(crc, s, i)
  {
    hide IsFrame, Waiting, Contents;
  }

  // ---- Delivery ----

  /** From every state the nodes can go on, without sending or losing anything, until each has delivered
      exactly what it had delivered and what was on its way to it. */
  lemma Delivers(crc: Crc, s: State) returns (states: seq<State>, steps: seq<Step>, s': State)
    requires Ok(crc, s)
    ensures Leads(crc, s, states, steps, s') && Ok(crc, s')
    ensures forall i: Id :: s'.nodes[i].delivered == Stream(crc, s, i) && s'.nodes[i].sent == s.nodes[i].sent
  {
    hide Path, Drained, Stream, IsFrame;
    Stay(crc, s);
    var c;
    states, steps, c := Drain(crc, s, [s], [], s, 0);
    var n := |steps|;
    PathKeeps(crc, states, steps, 0, n);
    DrainedStream(crc, c, 0);
    Stay(crc, c);
    var states2, steps2;
    states2, steps2, s' := Drain(crc, c, [c], [], c, 1);
    PathKeeps(crc, states, steps, 1, n);
    PathKeeps(crc, states2, steps2, 0, |steps2|);
    PathKeeps(crc, states2, steps2, 1, |steps2|);
    DrainedStream(crc, s', 1);
    DeliveredPart(crc, s', 0);
    Joined(crc, states, steps, states2, steps2);
    states, steps := states[..n] + states2, steps + steps2;
  }

  lemma Joined(crc: Crc, a: seq<State>, x: seq<Step>, b: seq<State>, y: seq<Step>)
    requires Path(crc, a, x) && Path(crc, b, y) && a[|x|] == b[0]
    ensures |x| < |a| && Path(crc, a[..|x|] + b, x + y)
    ensures (a[..|x|] + b)[0] == a[0] && (a[..|x|] + b)[|x + y|] == b[|y|]
  {
    hide Handles;
    var all, es := a[..|x|] + b, x + y;
    forall k | 0 <= k < |es| ensures Handles(crc, all[k], es[k], all[k + 1]) {
      if k < |x| {
        assert Handles(crc, a[k], x[k], a[k + 1]);
      } else {
        assert Handles(crc, b[k - |x|], y[k - |x|], b[k - |x| + 1]);
      }
    }
  }

  /** So every run can be continued until all that is on its way is delivered, and nothing more is lost. */
  lemma EveryRunDelivers(crc: Crc, states: seq<State>, steps: seq<Step>) returns (states': seq<State>, steps': seq<Step>)
    requires Run(crc, states, steps)
    ensures Run(crc, states', steps') && states <= states' && steps <= steps' && Ok(crc, states[|steps|])
    ensures forall i: Id ::
      && i in states'[|steps'|].nodes
      && states'[|steps'|].nodes[i].delivered == Stream(crc, states[|steps|], i)
      && Losses(crc, states', steps', i, |steps'|) == Losses(crc, states, steps, i, |steps|)
  {
    hide Stream, IsFrame, Init, Losses, Follows;
    var n, s := |steps|, states[|steps|];
    RunKeeps(crc, states, steps, 0, n);
    var more, es, s' := Delivers(crc, s);
    Extended(crc, states, steps, more, es);
    states', steps' := states[..n] + more, steps + es;
    forall i: Id
      ensures s'.nodes[i].delivered == Stream(crc, s, i)
      ensures Losses(crc, states', steps', i, |steps'|) == Losses(crc, states, steps, i, n)
    {
      RunKeeps(crc, states, steps, i, n);
      RunKeeps(crc, states', steps', i, |steps'|);
      PathKeeps(crc, more, es, i, |es|);
    }
  }

  lemma Extended(crc: Crc, a: seq<State>, x: seq<Step>, b: seq<State>, y: seq<Step>)
    requires Run(crc, a, x) && Path(crc, b, y) && a[|x|] == b[0]
    ensures |x| < |a| && Run(crc, a[..|x|] + b, x + y) && a <= a[..|x|] + b && (a[..|x|] + b)[|x + y|] == b[|y|]
  {
    hide Follows, Init, Loses;
    var all, es := a[..|x|] + b, x + y;
    forall k | 0 <= k < |es| ensures Follows(crc, all[k], es[k], all[k + 1]) {
      if k < |x| {
        assert Follows(crc, a[k], x[k], a[k + 1]);
      } else {
        assert Handles(crc, b[k - |x|], y[k - |x|], b[k - |x| + 1]);
      }
    }
    assert a == a[..|x|] + [b[0]];
  }

  /** Whatever the state, a packet that fits can be sent, and then all that was on its way and this packet can be delivered. */
  lemma SentArrives(crc: Crc, s: State, i: Id, p: Packet)
    returns (m: State, states: seq<State>, steps: seq<Step>, s': State)
    requires Ok(crc, s) && 0 < |p| <= MAX_PKT_LEN - 8
    ensures Follows(crc, s, FromIface(1 - i, p), m) && Leads(crc, m, states, steps, s') && i in s'.nodes
    ensures s'.nodes[i].delivered == Stream(crc, s, i) + [p]
  {
    hide Stream, IsFrame, Build, Path;
    var e := FromIface(1 - i, p);
    NextOk(crc, s, e);
    m := Next(crc, s, e);
    Sends(crc, s, e, i);
    states, steps, s' := Delivers(crc, m);
  }
}

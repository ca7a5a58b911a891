/** Host, node and network down to the frames: packets travel in fragments that may be lost, repeated and reordered, and
    both ends put them together again (mock_mcu/src/mock_node.cpp:29-46, toolbusd/src/main.cpp:257-265). */
module FramedDelivery {
  import opened FixedWidth
  import opened Results
  import opened PacketCodec
  import opened Fragmentation
  import opened Reassembly
  import opened FragmentDelivery
  import Requests
  import NodeCache
  import Packets = ReliableDelivery

  // ---------------------------------------------------------------- one direction of the bus

  /** A reassembler at the receiving end, and every packet sent to it, by stream and transfer id. */
  datatype Link = Link(config: Config, table: State, sent: map<u64, Sending>)

  ghost function KeyOf(d: Sending): u64 {
    Key(d.streamId, d.transferId)
  }

  /** The pieces that a transfer holds. */
  ghost function Held(t: Transfer): (seen: set<nat>)
    ensures forall i :: i in seen <==> i in t.pieces
  {
    t.pieces.Keys
  }

  ghost predicate SentInv(l: Link) {
    ValidConfig(l.config) &&
    forall k | k in l.sent :: ValidSending(l.config, l.sent[k]) && KeyOf(l.sent[k]) == k
  }

  /** Transfer k holds pieces of the packet that was sent under its key, and nothing else. */
  ghost predicate Holds(l: Link, table: State, k: u64)
    requires SentInv(l) && k in table
  {
    k in l.sent && Held(table[k]) != {} && Tracks(l.config, l.sent[k], table[k], Held(table[k]))
  }

  ghost predicate LinkInv(l: Link) {
    SentInv(l) && forall k | k in l.table :: Holds(l, l.table, k)
  }

  /** A frame on the bus: damaged beyond decoding, or a frame of a packet that was sent, zero-padded or not. */
  ghost predicate Carried(l: Link, a: Arrival)
    requires SentInv(l)
  {
    var f := DecodeFragment(a.frame, l.config.mtu);
    f.Ok? ==>
      var k := Key(a.streamId, f.value.transferId);
      k in l.sent && exists i: nat :: IsFrame(l.config, l.sent[k], a.frame, i)
  }

  lemma ExpireHolds(l: Link, now: int)
    requires LinkInv(l)
    ensures forall k | k in Expire(l.table, l.config.timeout, now) :: Holds(l, Expire(l.table, l.config.timeout, now), k)
  {
    forall k | k in Expire(l.table, l.config.timeout, now)
      ensures Holds(l, Expire(l.table, l.config.timeout, now), k)
    {
      assert Holds(l, l.table, k);
    }
  }

  /** What one frame of a packet makes of its own transfer. */
  lemma OwnHeld(l: Link, alive: State, k: u64, f: Fragment, i: nat, now: int)
    requires SentInv(l) && k in l.sent && Count(l.config, l.sent[k]) <= U16_MAX && IsFragment(l.config, l.sent[k], f, i)
    requires k in alive ==> Holds(l, alive, k)
    ensures var (next, outcome) := AcceptFragment(alive, k, f, now);
            (k in next ==> Holds(l, next, k)) &&
            (outcome.Ok? && outcome.value.packet.Some? ==> outcome.value.packet.value == l.sent[k].packet)
  {
    var d := l.sent[k];
    var seen: set<nat> := if k in alive then Held(alive[k]) else {};
    if k in alive || IsFirst(f.flags) {
      if k !in alive {
        FirstIsZero(l.config, d, f, i);
      }
      FragmentAnswered(l.config, d, alive, seen, f, i, now);
      HeldAfter(l.config, d, AcceptFragment(alive, k, f, now).0[k], seen + {i});
    }
  }

  lemma HeldAfter(c: Config, d: Sending, t: Transfer, seen: set<nat>)
    requires ValidSending(c, d) && Tracks(c, d, t, seen)
    ensures Held(t) == seen
  {
  }

  lemma OthersKept(alive: State, k: u64, f: Fragment, now: int, j: u64)
    requires j != k
    ensures var next := AcceptFragment(alive, k, f, now).0;
            (j in next <==> j in alive) && (j in alive ==> next[j] == alive[j])
  {
  }

  /** The table after one frame of a packet that was sent, and what is reported. */
  lemma FrameHeld(l: Link, alive: State, k: u64, f: Fragment, i: nat, now: int)
    requires SentInv(l) && k in l.sent && Count(l.config, l.sent[k]) <= U16_MAX && IsFragment(l.config, l.sent[k], f, i)
    requires forall j | j in alive :: Holds(l, alive, j)
    ensures var (next, outcome) := AcceptFragment(alive, k, f, now);
            (forall j | j in next :: Holds(l, next, j)) &&
            (outcome.Ok? && outcome.value.packet.Some? ==> outcome.value.packet.value == l.sent[k].packet)
  {
    var next := AcceptFragment(alive, k, f, now).0;
    OwnHeld(l, alive, k, f, i, now);
    forall j | j in next
      ensures Holds(l, next, j)
    {
      if j != k {
        OthersKept(alive, k, f, now, j);
        assert Holds(l, alive, j);
      }
    }
  }

  lemma FirstIsZero(c: Config, d: Sending, f: Fragment, i: nat)
    requires ValidSending(c, d) && IsFragment(c, d, f, i) && IsFirst(f.flags)
    ensures i == 0
  {
  }

  /** Whatever order the frames of any packets come in, the table holds pieces of packets that were sent, and every
      packet reported is the one that was sent under the frame's stream and transfer id. */
  lemma OnlySentIsReported(l: Link, a: Arrival)
    requires LinkInv(l) && Carried(l, a)
    ensures var (next, outcome) := Accept(l.config, l.table, a.streamId, a.frame, a.now);
            LinkInv(l.(table := next)) &&
            (outcome.Ok? && outcome.value.packet.Some? ==>
               DecodeFragment(a.frame, l.config.mtu).Ok? &&
               var k := Key(a.streamId, DecodeFragment(a.frame, l.config.mtu).value.transferId);
               k in l.sent && outcome.value.packet.value == l.sent[k].packet)
  {
    var alive := Expire(l.table, l.config.timeout, a.now);
    var (next, outcome) := Accept(l.config, l.table, a.streamId, a.frame, a.now);
    ExpireHolds(l, a.now);
    var decoded := DecodeFragment(a.frame, l.config.mtu);
    if decoded.Ok? {
      var k := Key(a.streamId, decoded.value.transferId);
      var d := l.sent[k];
      var i: nat :| IsFrame(l.config, d, a.frame, i);
      PaddedFrameDecodes(d.packet, d.transferId, l.config.mtu, a.frame, i);
      CountCovers(|d.packet|, Capacity(l.config.mtu));
      FrameHeld(l, alive, k, decoded.value, i, a.now);
    }
    SameSent(l, l.(table := next));
  }

  lemma SameSent(l: Link, after: Link)
    requires SentInv(l) && after == l.(table := after.table)
    requires forall k | k in after.table :: Holds(l, after.table, k)
    ensures LinkInv(after)
  {
    forall k | k in after.table
      ensures Holds(after, after.table, k)
    {
      assert Holds(l, after.table, k);
    }
  }

  // ---------------------------------------------------------------- both directions

  /** The packet level of ReliableDelivery, with a link to the node and one back to the host. */
  datatype Bus = Bus(packets: Packets.System, toNode: Link, toHost: Link)

  datatype Action =
    | HostOrSession(action: Packets.Action)
    | SendRequest(request: Sending)
    | SendResponse(response: Sending)
    | NodeHears(frame: Arrival)
    | HostHears(frame: Arrival)

  /** Requests and responses are sent under transfer ids not used before; what is heard was sent. */
  ghost predicate Possible(bus: Bus, a: Action)
    requires SentInv(bus.toNode) && SentInv(bus.toHost)
  {
    match a
    case HostOrSession(action) => !action.Deliver? && !action.Return? && Packets.Possible(bus.packets, action)
    case SendRequest(d) =>
      d.packet in bus.packets.requests && ValidSending(bus.toNode.config, d) && KeyOf(d) !in bus.toNode.sent
    case SendResponse(d) =>
      d.packet in bus.packets.responses && ValidSending(bus.toHost.config, d) && KeyOf(d) !in bus.toHost.sent
    case NodeHears(frame) => Carried(bus.toNode, frame)
    case HostHears(frame) => Carried(bus.toHost, frame)
  }

  /** MockNode::handle_frame: a complete packet is processed, and one already complete is processed again when its last
      frame is repeated. */
  function NodeTakes(c: Config, frame: seq<u8>, outcome: Outcome): Option<seq<u8>> {
    if outcome.Err? then None
    else
      var f := DecodeFragment(frame, c.mtu);
      var repeatedLast := outcome.value.status.Duplicate? && f.Ok? && IsLast(f.value.flags);
      if outcome.value.status.Complete? || repeatedLast then outcome.value.packet else None
  }

  /** The daemon takes complete packets only. */
  function HostTakes(outcome: Outcome): Option<seq<u8>> {
    if outcome.Ok? && outcome.value.status.Complete? then outcome.value.packet else None
  }

  ghost function Sent(l: Link, d: Sending): Link {
    l.(sent := l.sent[KeyOf(d) := d])
  }

  ghost function Heard(l: Link, a: Arrival): Link {
    l.(table := Accept(l.config, l.table, a.streamId, a.frame, a.now).0)
  }

  function NodeHandOver(l: Link, a: Arrival): Option<seq<u8>> {
    NodeTakes(l.config, a.frame, Accept(l.config, l.table, a.streamId, a.frame, a.now).1)
  }

  function HostHandOver(l: Link, a: Arrival): Option<seq<u8>> {
    HostTakes(Accept(l.config, l.table, a.streamId, a.frame, a.now).1)
  }

  ghost function Step(setup: Packets.Setup, bus: Bus, a: Action): Bus
    requires SentInv(bus.toNode) && SentInv(bus.toHost) && Possible(bus, a)
  {
    match a
    case HostOrSession(action) => bus.(packets := Packets.Step(setup, bus.packets, action))
    case SendRequest(d) => bus.(toNode := Sent(bus.toNode, d))
    case SendResponse(d) => bus.(toHost := Sent(bus.toHost, d))
    case NodeHears(frame) =>
      var bytes := NodeHandOver(bus.toNode, frame);
      bus.(toNode := Heard(bus.toNode, frame),
           packets := if bytes.None? then bus.packets
                      else Packets.AfterDeliver(setup, bus.packets, bytes.value, frame.now))
    case HostHears(frame) =>
      var bytes := HostHandOver(bus.toHost, frame);
      bus.(toHost := Heard(bus.toHost, frame),
           packets := if bytes.None? then bus.packets
                      else Packets.AfterReturn(setup, bus.packets, bytes.value, frame.now))
  }

  /** Links are in order and carry what the packet level has put on the wire. */
  ghost predicate Inv(setup: Packets.Setup, bus: Bus) {
    && Packets.Inv(setup, bus.packets)
    && LinkInv(bus.toNode) && LinkInv(bus.toHost)
    && (forall k | k in bus.toNode.sent :: bus.toNode.sent[k].packet in bus.packets.requests)
    && (forall k | k in bus.toHost.sent :: bus.toHost.sent[k].packet in bus.packets.responses)
  }

  /** What the node takes is a request on the wire. */
  lemma NodeTakesSent(setup: Packets.Setup, bus: Bus, a: Arrival)
    requires Inv(setup, bus) && Carried(bus.toNode, a)
    ensures LinkInv(Heard(bus.toNode, a))
    ensures NodeHandOver(bus.toNode, a).Some? ==> NodeHandOver(bus.toNode, a).value in bus.packets.requests
  {
    OnlySentIsReported(bus.toNode, a);
  }

  lemma HostTakesSent(setup: Packets.Setup, bus: Bus, a: Arrival)
    requires Inv(setup, bus) && Carried(bus.toHost, a)
    ensures LinkInv(Heard(bus.toHost, a))
    ensures HostHandOver(bus.toHost, a).Some? ==> HostHandOver(bus.toHost, a).value in bus.packets.responses
  {
    OnlySentIsReported(bus.toHost, a);
  }

  lemma SentKeepsLink(l: Link, d: Sending)
    requires LinkInv(l) && ValidSending(l.config, d) && KeyOf(d) !in l.sent
    ensures LinkInv(Sent(l, d))
  {
    var after := Sent(l, d);
    forall k | k in after.table
      ensures Holds(after, after.table, k)
    {
      assert Holds(l, l.table, k);
    }
  }

  /** The wire only fills. */
  lemma WireGrows(setup: Packets.Setup, packets: Packets.System, a: Packets.Action)
    requires Packets.Possible(packets, a)
    ensures packets.requests <= Packets.Step(setup, packets, a).requests
    ensures packets.responses <= Packets.Step(setup, packets, a).responses
  {
  }

  /** What a step is for the packet level: one of its steps, or none. */
  ghost function PacketActions(bus: Bus, a: Action): seq<Packets.Action> {
    match a
    case HostOrSession(action) => [action]
    case SendRequest(_) => []
    case SendResponse(_) => []
    case NodeHears(frame) =>
      var bytes := NodeHandOver(bus.toNode, frame);
      if bytes.None? then [] else [Packets.Deliver(bytes.value, frame.now)]
    case HostHears(frame) =>
      var bytes := HostHandOver(bus.toHost, frame);
      if bytes.None? then [] else [Packets.Return(bytes.value, frame.now)]
  }

  lemma StepIsPacketStep(setup: Packets.Setup, bus: Bus, a: Action)
    requires Inv(setup, bus) && Possible(bus, a)
    ensures var done := PacketActions(bus, a); var next := Step(setup, bus, a).packets;
            if done == [] then next == bus.packets
            else
              |done| == 1 && Packets.Possible(bus.packets, done[0]) && next == Packets.Step(setup, bus.packets, done[0])
  {
    match a
    case HostOrSession(action) =>
    case SendRequest(d) =>
    case SendResponse(d) =>
    case NodeHears(frame) => NodeTakesSent(setup, bus, frame);
    case HostHears(frame) => HostTakesSent(setup, bus, frame);
  }

  lemma StepKeepsLinks(setup: Packets.Setup, bus: Bus, a: Action)
    requires Inv(setup, bus) && Possible(bus, a)
    ensures LinkInv(Step(setup, bus, a).toNode) && LinkInv(Step(setup, bus, a).toHost)
  {
    match a
    case HostOrSession(action) =>
    case SendRequest(d) => SentKeepsLink(bus.toNode, d);
    case SendResponse(d) => SentKeepsLink(bus.toHost, d);
    case NodeHears(frame) => NodeTakesSent(setup, bus, frame);
    case HostHears(frame) => HostTakesSent(setup, bus, frame);
  }

  lemma StepKeepsInv(setup: Packets.Setup, bus: Bus, a: Action)
    requires Packets.ValidSetup(setup) && Inv(setup, bus) && Possible(bus, a)
    ensures Inv(setup, Step(setup, bus, a))
  {
    StepIsPacketStep(setup, bus, a);
    StepKeepsLinks(setup, bus, a);
    var done := PacketActions(bus, a);
    if done != [] {
      Packets.StepKeepsInv(setup, bus.packets, done[0]);
      WireGrows(setup, bus.packets, done[0]);
    }
  }

  // ---------------------------------------------------------------- whole runs

  ghost predicate Steps(setup: Packets.Setup, bus: Bus, a: Action, next: Bus) {
    SentInv(bus.toNode) && SentInv(bus.toHost) && Possible(bus, a) && next == Step(setup, bus, a)
  }

  ghost function Initial(node: Config, host: Config): Bus {
    Bus(Packets.INITIAL, Link(node, map[], map[]), Link(host, map[], map[]))
  }

  ghost predicate IsRun(setup: Packets.Setup, node: Config, host: Config, actions: seq<Action>, states: seq<Bus>) {
    |states| == |actions| + 1 && states[0] == Initial(node, host) &&
    forall i {:trigger actions[i]} | 0 <= i < |actions| :: Steps(setup, states[i], actions[i], states[i + 1])
  }

  /** A run of the packet level that ends in the given state. */
  ghost predicate ReachedByPackets(setup: Packets.Setup, packets: Packets.System) {
    exists actions, states :: Packets.IsRun(setup, actions, states) && states[|actions|] == packets
  }

  lemma OneMorePacketStep(setup: Packets.Setup, packets: Packets.System, a: Packets.Action)
    requires ReachedByPackets(setup, packets) && Packets.Possible(packets, a)
    ensures ReachedByPackets(setup, Packets.Step(setup, packets, a))
  {
    var actions, states :| Packets.IsRun(setup, actions, states) && states[|actions|] == packets;
    var more, after := actions + [a], states + [Packets.Step(setup, packets, a)];
    forall i | 0 <= i < |more|
      ensures Packets.Possible(after[i], more[i]) && after[i + 1] == Packets.Step(setup, after[i], more[i])
    {
      if i < |actions| {
        assert after[i] == states[i] && after[i + 1] == states[i + 1] && more[i] == actions[i];
      }
    }
    assert Packets.IsRun(setup, more, after) && after[|more|] == Packets.Step(setup, packets, a);
  }

  /** Fragmented delivery refines packet delivery: in every run of frames, the host and the node have gone through a run
      of the packet level, and both links are in order. */
  lemma {:induction false} RunRefines(setup: Packets.Setup, node: Config, host: Config, actions: seq<Action>,
      states: seq<Bus>, i: nat)
    requires Packets.ValidSetup(setup) && ValidConfig(node) && ValidConfig(host)
    requires IsRun(setup, node, host, actions, states) && i <= |actions|
    ensures Inv(setup, states[i]) && ReachedByPackets(setup, states[i].packets)
  {
    if i == 0 {
      NodeCache.InitialInv(setup.maximumCachedRequests);
      var none: seq<Packets.Action> := [];
      var start := [Packets.INITIAL];
      assert Packets.IsRun(setup, none, start) && start[|none|] == states[0].packets;
    } else {
      RunRefines(setup, node, host, actions, states, i - 1);
      var bus, a := states[i - 1], actions[i - 1];
      StepKeepsInv(setup, bus, a);
      StepIsPacketStep(setup, bus, a);
      var done := PacketActions(bus, a);
      if done != [] {
        OneMorePacketStep(setup, bus.packets, done[0]);
      }
    }
  }

  /** Down to the frames: when the host completes a packet and matches it, while the request was undisturbed, the request
      was executed once and the response is the one that its execution gave. */
  lemma MatchedOverFrames(setup: Packets.Setup, node: Config, host: Config, actions: seq<Action>, states: seq<Bus>,
      i: nat, frame: Arrival, response: Packet, first: nat)
    requires Packets.ValidSetup(setup) && ValidConfig(node) && ValidConfig(host)
    requires IsRun(setup, node, host, actions, states) && i < |actions| && actions[i] == HostHears(frame)
    requires var bytes := HostHandOver(states[i].toHost, frame); bytes.Some? && Decode(bytes.value) == Ok(response)
    requires Requests.AcceptResponse(setup.host, states[i].packets.host, response, frame.now).1.Matched?
    requires Packets.Undisturbed(setup, states[i].packets, Requests.KeyOf(response), first)
    ensures var packets := states[i].packets; var key := Requests.KeyOf(response);
            key in packets.host.pending &&
            Packets.Answered(packets, packets.host.pending[key].packet, response, first) &&
            forall n: nat | Packets.ExecutedAt(packets, key, n) :: n == first
  {
    RunRefines(setup, node, host, actions, states, i);
    assert Steps(setup, states[i], actions[i], states[i + 1]);
    var bus := states[i];
    HostTakesSent(setup, bus, frame);
    Packets.MatchedIsTheOnlyExecution(setup, bus.packets, HostHandOver(bus.toHost, frame).value, response, frame.now, first);
  }

  // ---------------------------------------------------------------- what gets through

  /** What the node takes from a sequence of frames, in order. */
  ghost function Taken(l: Link, arrivals: seq<Arrival>): seq<seq<u8>>
    decreases |arrivals|
  {
    if arrivals == [] then []
    else
      var bytes := NodeHandOver(l, arrivals[0]);
      (if bytes.Some? then [bytes.value] else []) + Taken(Heard(l, arrivals[0]), arrivals[1..])
  }

  ghost predicate AllCarried(l: Link, arrivals: seq<Arrival>)
    requires SentInv(l)
  {
    forall j | 0 <= j < |arrivals| :: Carried(l, arrivals[j])
  }

  lemma HeardCarries(l: Link, arrivals: seq<Arrival>)
    requires LinkInv(l) && arrivals != [] && AllCarried(l, arrivals)
    ensures LinkInv(Heard(l, arrivals[0])) && AllCarried(Heard(l, arrivals[0]), arrivals[1..])
  {
    OnlySentIsReported(l, arrivals[0]);
    var next := Heard(l, arrivals[0]);
    forall j | 0 <= j < |arrivals| - 1
      ensures Carried(next, arrivals[1..][j])
    {
      assert Carried(l, arrivals[j + 1]);
    }
  }

  /** Nothing is taken but what was sent. */
  lemma {:induction false} TakenWasSent(l: Link, arrivals: seq<Arrival>, bytes: seq<u8>)
    requires LinkInv(l) && AllCarried(l, arrivals) && bytes in Taken(l, arrivals)
    ensures exists k :: k in l.sent && l.sent[k].packet == bytes
    decreases |arrivals|
  {
    OnlySentIsReported(l, arrivals[0]);
    HeardCarries(l, arrivals);
    if bytes in Taken(Heard(l, arrivals[0]), arrivals[1..]) {
      TakenWasSent(Heard(l, arrivals[0]), arrivals[1..], bytes);
    }
  }

  lemma {:induction false} CompletionIsTaken(l: Link, d: Sending, arrivals: seq<Arrival>)
    requires var outcomes := Run(l.config, l.table, arrivals);
             && Completions(l.config, d, arrivals, outcomes) > 0
             && forall j | 0 <= j < |arrivals| :: Answered(l.config, d, arrivals, outcomes, j)
    ensures d.packet in Taken(l, arrivals)
    decreases |arrivals|
  {
    var a := arrivals[0];
    var outcomes := Run(l.config, l.table, arrivals);
    var next := Heard(l, a);
    assert outcomes[0] == Accept(l.config, l.table, a.streamId, a.frame, a.now).1;
    assert outcomes[1..] == Run(next.config, next.table, arrivals[1..]);
    assert Answered(l.config, d, arrivals, outcomes, 0);
    if !(Ours(l.config, d, a) && outcomes[0].Ok? && outcomes[0].value.status.Complete?) {
      forall j | 0 <= j < |arrivals| - 1
        ensures Answered(l.config, d, arrivals[1..], outcomes[1..], j)
      {
        assert Answered(l.config, d, arrivals, outcomes, j + 1);
      }
      CompletionIsTaken(next, d, arrivals[1..]);
    }
  }

  /** A packet that was sent, and all of whose frames arrive, frame 0 first and none later than the timeout after the one
      before, in any other order, repeated, and among the frames of any other packets, is taken. */
  lemma SentIsTaken(l: Link, k: u64, arrivals: seq<Arrival>)
    requires LinkInv(l) && k in l.sent && k !in l.table && AllCarried(l, arrivals) && Ordered(arrivals)
    requires var d := l.sent[k];
             && StartsWithFirst(l.config, d, arrivals)
             && Prompt(l.config, d, arrivals, FirstTime(l.config, d, arrivals))
             && AllSeen(l.config, d, Indices(l.config, d, arrivals))
    ensures l.sent[k].packet in Taken(l, arrivals)
  {
    var d := l.sent[k];
    forall j | 0 <= j < |arrivals| && Ours(l.config, d, arrivals[j])
      ensures exists i: nat :: IsFrame(l.config, d, arrivals[j].frame, i)
    {
      assert Carried(l, arrivals[j]);
    }
    PacketDeliveredOnce(l.config, d, l.table, arrivals);
    CompletionIsTaken(l, d, arrivals);
  }
}

/** Registry, connections and streams of the in-memory network together
    (crates/platform-mock/src/net.rs): what a client sees of a connection that nobody has accepted. */
module MockSession {
  import opened Wrappers
  import opened Mailboxes
  import opened MockConnect
  import MockStream

  type Streams = seq<seq<MockStream.Connection>>

  /** `streams[l][i]` is the connection of the end that the i-th connect to listener `l` returned. */
  datatype Session<!A(==)> = Session(world: World<A>, streams: Streams)

  datatype Act<A> = Do(call: Call<A>) | Use(listener: nat, conn: nat, op: MockStream.Op)

  predicate Exists(streams: Streams, l: int, i: int) {
    0 <= l < |streams| && 0 <= i < |streams[l]|
  }

  /** A client end is its caller's from the start, a server end only once it was accepted. */
  predicate Allowed<A(==)>(s: Session<A>, act: Act<A>) {
    match act
    case Do(call) => Possible(s.world, call)
    case Use(l, i, op) =>
      Exists(s.streams, l, i) && (op.end.Client? || (l < |s.world.net.boxes| && i < |s.world.net.boxes[l].taken|))
  }

  /** A server end that goes with the channel it waits in. */
  function DropServer(c: MockStream.Connection): MockStream.Connection {
    MockStream.Step(MockStream.Step(c, MockStream.StartDrop(MockStream.Server)), MockStream.FinishDrop(MockStream.Server))
  }

  function DropQueued(cs: seq<MockStream.Connection>, taken: nat): seq<MockStream.Connection> {
    seq(|cs|, i requires 0 <= i < |cs| => if i < taken then cs[i] else DropServer(cs[i]))
  }

  /** New connections begin fresh; a listener's channel takes the server ends in it along. */
  function NextStreams<A(==)>(s: Session<A>, call: Call<A>, done: bool): Streams {
    if call.Listen? && done then s.streams + [[]]
    else if call.FinishConnect? && done && call.thread in s.world.net.senders
      && s.world.net.senders[call.thread] < |s.streams| then
      var b := s.world.net.senders[call.thread];
      s.streams[b := s.streams[b] + [MockStream.OPENED]]
    else if call.FinishDrop? && call.listener < |s.streams| && call.listener < |s.world.net.boxes| then
      var l := call.listener;
      s.streams[l := DropQueued(s.streams[l], |s.world.net.boxes[l].taken|)]
    else s.streams
  }

  ghost function Next<A>(s: Session<A>, act: Act<A>): Session<A>
    requires Inv(s.world.net) && Allowed(s, act)
  {
    match act
    case Do(call) =>
      var done := Step(s.world.net, AsOp(s.world, call)).reply == Done;
      Session(Advance(s.world, call), NextStreams(s, call, done))
    case Use(l, i, op) => s.(streams := s.streams[l := s.streams[l][i := MockStream.Step(s.streams[l][i], op)]])
  }

  // ----- The invariant -----

  /** Nobody has served the connection: nothing comes to the client, and its server end is there or,
      if `gone`, dropped. */
  predicate Unserved(c: MockStream.Connection, gone: bool) {
    && c.toClient.flow.queue == [] && c.toClient.flow.readPos == |c.toClient.flow.readBuf|
    && c.toClient.flow.senderGone == gone && c.toServer.flow.receiverGone == gone
  }

  ghost predicate Waiting<A>(boxes: Boxes<A>, streams: Streams) {
    && |streams| == |boxes|
    && (forall l :: 0 <= l < |boxes| ==> |streams[l]| == |boxes[l].posted|)
    && forall l, i :: Exists(streams, l, i) && |boxes[l].taken| <= i ==> Unserved(streams[l][i], boxes[l].phase.Gone?)
  }

  ghost predicate Valid<A>(s: Session<A>) {
    Wired(s.world) && Waiting(s.world.net.boxes, s.streams)
  }

  lemma ClientUses(c: MockStream.Connection, op: MockStream.Op, gone: bool)
    requires Unserved(c, gone) && op.end.Client?
    ensures Unserved(MockStream.Step(c, op), gone)
  {
  }

  lemma ServerDropped(c: MockStream.Connection)
    requires Unserved(c, false)
    ensures Unserved(DropServer(c), true)
  {
  }

  lemma UseKeeps<A>(s: Session<A>, act: Act<A>)
    requires Valid(s) && Allowed(s, act) && act.Use?
    ensures Valid(Next(s, act))
  {
    var after := Next(s, act).streams;
    var boxes := s.world.net.boxes;
    forall l, i | Exists(after, l, i) && |boxes[l].taken| <= i
      ensures Unserved(after[l][i], boxes[l].phase.Gone?)
    {
      assert Exists(s.streams, l, i);
      if l == act.listener && i == act.conn {
        ClientUses(s.streams[l][i], act.op, boxes[l].phase.Gone?);
      }
    }
  }

  lemma SameWaits<A>(a: Boxes<A>, b: Boxes<A>, before: Streams, after: Streams)
    requires Waiting(a, before) && Same(a, b) && |after| == |b|
    requires forall l :: 0 <= l < |b| ==> after[l] == if l < |a| then before[l] else []
    ensures Waiting(b, after)
  {
    forall l, i | Exists(after, l, i) && |b[l].taken| <= i
      ensures Unserved(after[l][i], b[l].phase.Gone?)
    {
      assert Exists(before, l, i);
    }
  }

  lemma CallKeeps<A>(s: Session<A>, call: Call<A>)
    requires Valid(s) && Possible(s.world, call) && !call.FinishConnect? && !call.FinishDrop?
    ensures Waiting(Next(s, Do(call)).world.net.boxes, Next(s, Do(call)).streams)
  {
    StepSame(s.world.net, AsOp(s.world, call));
    SameWaits(s.world.net.boxes, Advance(s.world, call).net.boxes, s.streams, Next(s, Do(call)).streams);
  }

  lemma ConnectKeeps<A>(s: Session<A>, call: Call<A>)
    requires Valid(s) && Possible(s.world, call) && call.FinishConnect?
    ensures Waiting(Next(s, Do(call)).world.net.boxes, Next(s, Do(call)).streams)
  {
    var a, b, after := s.world.net.boxes, Advance(s.world, call).net.boxes, Next(s, Do(call)).streams;
    assert InOrder(a[s.world.net.senders[call.thread]]);
    forall l, i | Exists(after, l, i) && |b[l].taken| <= i
      ensures Unserved(after[l][i], b[l].phase.Gone?)
    {
      assert Exists(s.streams, l, i) || after[l][i] == MockStream.OPENED;
    }
  }

  lemma DropKeeps<A>(s: Session<A>, call: Call<A>)
    requires Valid(s) && Possible(s.world, call) && call.FinishDrop?
    ensures Waiting(Next(s, Do(call)).world.net.boxes, Next(s, Do(call)).streams)
  {
    var b, after := Advance(s.world, call).net.boxes, Next(s, Do(call)).streams;
    forall l, i | Exists(after, l, i) && |b[l].taken| <= i
      ensures Unserved(after[l][i], b[l].phase.Gone?)
    {
      assert Exists(s.streams, l, i);
      if l == call.listener {
        ServerDropped(s.streams[l][i]);
      }
    }
  }

  lemma NextValid<A>(s: Session<A>, act: Act<A>)
    requires Valid(s) && Allowed(s, act)
    ensures Valid(Next(s, act))
  {
    match act
    case Use(_, _, _) => UseKeeps(s, act);
    case Do(call) =>
      AdvanceWired(s.world, call);
      if call.FinishConnect? {
        ConnectKeeps(s, call);
      } else if call.FinishDrop? {
        DropKeeps(s, call);
      } else {
        CallKeeps(s, call);
      }
  }

  // ----- Runs -----

  ghost function Play<A>(s: Session<A>, acts: seq<Act<A>>): (after: Session<A>)
    requires Valid(s)
    ensures Valid(after)
    decreases |acts|
  {
    if acts == [] then s
    else if !Allowed(s, acts[0]) then Play(s, acts[1..])
    else NextValid(s, acts[0]); Play(Next(s, acts[0]), acts[1..])
  }

  ghost function Played<A>(acts: seq<Act<A>>): (s: Session<A>)
    ensures Valid(s)
  {
    Play(Session(World(Net(map[], [], map[]), 0, map[], []), []), acts)
  }

  /** In every run, a client whose connection was not accepted sees one thing: whether the listener's
      channel is still there. Once it is gone, every read returns 0 and every write fails;
      before, no read returns and every write succeeds. */
  lemma UnacceptedClient<A>(acts: seq<Act<A>>, l: nat, i: nat, size: nat, timeout: bool, bytes: MockStream.Data)
    requires Exists(Played(acts).streams, l, i) && |Played(acts).world.net.boxes[l].taken| <= i
    ensures var c, gone := Played(acts).streams[l][i], Played(acts).world.net.boxes[l].phase.Gone?;
      && MockStream.Read(c.toClient.flow, size, timeout).reply ==
           (if gone then MockStream.Bytes([]) else if timeout then MockStream.WouldBlock else MockStream.Blocked)
      && MockStream.Write(c.toServer.flow, bytes).1 == !gone
  {
    assert Unserved(Played(acts).streams[l][i], Played(acts).world.net.boxes[l].phase.Gone?);
  }

  /** A listener that is gone accepts no more, so that what was not accepted then never is. */
  lemma {:induction false} GoneAcceptsNothing<A>(s: Session<A>, acts: seq<Act<A>>, l: nat)
    requires Valid(s) && l < |s.world.net.boxes| && s.world.net.boxes[l].phase.Gone?
    ensures l < |Play(s, acts).world.net.boxes| && Play(s, acts).world.net.boxes[l].phase.Gone?
    ensures Play(s, acts).world.net.boxes[l].taken == s.world.net.boxes[l].taken
    decreases |acts|
  {
    if acts != [] {
      if Allowed(s, acts[0]) {
        NextValid(s, acts[0]);
        if acts[0].Do? {
          GoneStays(s.world.net, AsOp(s.world, acts[0].call), l);
        }
        GoneAcceptsNothing(Next(s, acts[0]), acts[1..], l);
      } else {
        GoneAcceptsNothing(s, acts[1..], l);
      }
    }
  }
}

/** The process-global registries of the in-memory network (crates/platform-mock/src/net.rs): from
    address to the sending half of a channel. TCP and Unix listeners and UDP sockets have one each;
    `A` is the address, `P` what the channel carries. A connect is two steps, because it releases
    the registry between looking the address up and sending; a drop is two steps, because the
    entry goes before the channel does. */
module Mailboxes {
  /** `Unlisted`: out of the registry, with its channel still there. */
  datatype Phase = Live | Unlisted | Gone

  /** A listener or socket: what is queued, and all that was ever put in and taken out. */
  datatype Box<!A, P> = Box(addr: A, phase: Phase, queue: seq<P>, posted: seq<P>, taken: seq<P>)

  /** `senders` are the threads between the two steps of a connect, with the box they found. */
  datatype Net<!A(==), P> = Net(entries: map<A, nat>, boxes: seq<Box<A, P>>, senders: map<nat, nat>)

  datatype Reply<P> = Done | AddrInUse | ConnectionRefused | Got(item: P) | Blocked | Disconnected

  datatype Outcome<!A(==), P> = Outcome(net: Net<A, P>, reply: Reply<P>)

  // ----- The steps -----

  /** `tcp_listen`, `unix_listen`, `udp_bind` */
  function Bind<A(==), P>(net: Net<A, P>, a: A): Outcome<A, P> {
    if a in net.entries then Outcome(net, AddrInUse)
    else Outcome(net.(entries := net.entries[a := |net.boxes|], boxes := net.boxes + [Box(a, Live, [], [], [])]), Done)
  }

  /** The first half of a connect: clone the sender registered for the address. */
  function LookUp<A(==), P>(net: Net<A, P>, thread: nat, a: A): Outcome<A, P> {
    if a !in net.entries then Outcome(net, ConnectionRefused)
    else Outcome(net.(senders := net.senders[thread := net.entries[a]]), Done)
  }

  /** The second half: send, and let the clone go. */
  function Post<A(==), P>(net: Net<A, P>, thread: nat, item: P): Outcome<A, P>
    requires thread in net.senders && net.senders[thread] < |net.boxes|
  {
    var b, rest := net.senders[thread], net.(senders := net.senders - {thread});
    var box := net.boxes[b];
    if box.phase.Gone? then Outcome(rest, ConnectionRefused)
    else Outcome(rest.(boxes := net.boxes[b := box.(queue := box.queue + [item], posted := box.posted + [item])]), Done)
  }

  /** Somebody can still send to the box. */
  predicate HasSender<A(==), P>(net: Net<A, P>, b: nat) {
    b in net.entries.Values || b in net.senders.Values
  }

  /** `accept` and `recv_from`, on the owner's side */
  function Take<A(==), P>(net: Net<A, P>, b: nat): Outcome<A, P>
    requires b < |net.boxes|
  {
    var box := net.boxes[b];
    if box.queue != [] then
      Outcome(net.(boxes := net.boxes[b := box.(queue := box.queue[1..], taken := box.taken + [box.queue[0]])]), Got(box.queue[0]))
    else Outcome(net, if HasSender(net, b) then Blocked else Disconnected)
  }

  /** The first half of a drop: remove whatever is registered for the owner's address. */
  function Unlist<A(==), P>(net: Net<A, P>, b: nat): Outcome<A, P>
    requires b < |net.boxes|
  {
    var box := net.boxes[b];
    Outcome(net.(entries := net.entries - {box.addr}, boxes := net.boxes[b := box.(phase := Unlisted)]), Done)
  }

  /** The second half: the channel goes, with all that is queued. */
  function Close<A(==), P>(net: Net<A, P>, b: nat): Outcome<A, P>
    requires b < |net.boxes|
  {
    Outcome(net.(boxes := net.boxes[b := net.boxes[b].(phase := Gone, queue := [])]), Done)
  }

  // ----- The invariant -----

  predicate Registered<A(==), P>(net: Net<A, P>, b: nat)
    requires b < |net.boxes|
  {
    net.boxes[b].addr in net.entries && net.entries[net.boxes[b].addr] == b
  }

  /** Taken and queued make up what was posted; after the channel is gone, the taken part stays. */
  predicate InOrder<A, P(==)>(box: Box<A, P>) {
    && box.taken <= box.posted
    && (if box.phase.Gone? then box.queue == [] else box.taken + box.queue == box.posted)
  }

  /** The keys are the addresses of the live boxes, each leading to its own box. */
  ghost predicate Inv<A, P>(net: Net<A, P>) {
    && (forall b :: 0 <= b < |net.boxes| ==> (net.boxes[b].phase.Live? <==> Registered(net, b)))
    && (forall a :: a in net.entries ==> net.entries[a] < |net.boxes| && net.boxes[net.entries[a]].addr == a)
    && (forall b :: 0 <= b < |net.boxes| ==> InOrder(net.boxes[b]))
    && (forall t :: t in net.senders ==> net.senders[t] < |net.boxes|)
  }

  datatype Op<A, P> =
    | BindOp(addr: A)
    | LookUpOp(thread: nat, addr: A)
    | PostOp(thread: nat, item: P)
    | TakeOp(box: nat)
    | UnlistOp(box: nat)
    | CloseOp(box: nat)

  /** Owners take and drop, in this order; a thread sends after it looked up. */
  predicate Enabled<A(==), P>(net: Net<A, P>, op: Op<A, P>) {
    match op
    case BindOp(_) => true
    case LookUpOp(thread, _) => thread !in net.senders
    case PostOp(thread, _) => thread in net.senders
    case TakeOp(b) => b < |net.boxes| && net.boxes[b].phase.Live?
    case UnlistOp(b) => b < |net.boxes| && net.boxes[b].phase.Live?
    case CloseOp(b) => b < |net.boxes| && net.boxes[b].phase.Unlisted?
  }

  function Step<A(==), P>(net: Net<A, P>, op: Op<A, P>): Outcome<A, P>
    requires Enabled(net, op) && forall t :: t in net.senders ==> net.senders[t] < |net.boxes|
  {
    match op
    case BindOp(a) => Bind(net, a)
    case LookUpOp(thread, a) => LookUp(net, thread, a)
    case PostOp(thread, item) => Post(net, thread, item)
    case TakeOp(b) => Take(net, b)
    case UnlistOp(b) => Unlist(net, b)
    case CloseOp(b) => Close(net, b)
  }

  lemma BindInv<A, P>(net: Net<A, P>, a: A)
    requires Inv(net)
    ensures Inv(Bind(net, a).net)
  {
  }

  lemma PostInv<A, P>(net: Net<A, P>, thread: nat, item: P)
    requires Inv(net) && thread in net.senders
    ensures Inv(Post(net, thread, item).net)
  {
    var box := net.boxes[net.senders[thread]];
    assert box.taken + (box.queue + [item]) == box.taken + box.queue + [item];
  }

  lemma TakeInv<A, P>(net: Net<A, P>, b: nat)
    requires Inv(net) && b < |net.boxes|
    ensures Inv(Take(net, b).net)
  {
    var box := net.boxes[b];
    if box.queue != [] {
      assert box.taken + box.queue == box.taken + [box.queue[0]] + box.queue[1..];
    }
  }

  lemma UnlistInv<A, P>(net: Net<A, P>, b: nat)
    requires Inv(net) && b < |net.boxes| && net.boxes[b].phase.Live?
    ensures Inv(Unlist(net, b).net)
  {
    var after := Unlist(net, b).net;
    forall c | 0 <= c < |after.boxes|
      ensures after.boxes[c].phase.Live? <==> Registered(after, c)
    {
      assert c != b ==> after.boxes[c] == net.boxes[c];
      assert Registered(net, b);
    }
  }

  lemma StepInv<A, P>(net: Net<A, P>, op: Op<A, P>)
    requires Inv(net) && Enabled(net, op)
    ensures Inv(Step(net, op).net)
  {
    match op
    case BindOp(a) => BindInv(net, a);
    case LookUpOp(thread, a) =>
    case PostOp(thread, item) => PostInv(net, thread, item);
    case TakeOp(b) => TakeInv(net, b);
    case UnlistOp(b) => UnlistInv(net, b);
    case CloseOp(b) =>
  }

  // ----- Runs -----

  /** Any steps of any threads, skipping those nobody can take. */
  ghost function Exec<A, P>(net: Net<A, P>, ops: seq<Op<A, P>>): (after: Net<A, P>)
    requires Inv(net)
    ensures Inv(after)
    decreases |ops|
  {
    if ops == [] then net
    else if !Enabled(net, ops[0]) then Exec(net, ops[1..])
    else StepInv(net, ops[0]); Exec(Step(net, ops[0]).net, ops[1..])
  }

  ghost function Reached<A, P>(ops: seq<Op<A, P>>): (net: Net<A, P>)
    ensures Inv(net)
  {
    Exec(Net(map[], [], map[]), ops)
  }

  ghost predicate LiveAt<A, P>(net: Net<A, P>, a: A) {
    exists b :: 0 <= b < |net.boxes| && net.boxes[b].phase.Live? && net.boxes[b].addr == a
  }

  /** In every reachable state the keys are exactly the addresses of the live boxes, and no two
      live boxes share one. So binding fails exactly on an address a live box holds, and a connect
      is refused at its lookup exactly when none does. */
  lemma KeysAreLive<A, P>(ops: seq<Op<A, P>>, a: A, thread: nat)
    ensures var net := Reached(ops);
      && (a in net.entries <==> LiveAt(net, a))
      && (Bind(net, a).reply == AddrInUse <==> LiveAt(net, a))
      && (LookUp(net, thread, a).reply == ConnectionRefused <==> !LiveAt(net, a))
    ensures var boxes := Reached(ops).boxes;
      forall b, c :: 0 <= b < c < |boxes| && boxes[b].phase.Live? && boxes[c].phase.Live? ==> boxes[b].addr != boxes[c].addr
  {
    var net := Reached(ops);
    if a in net.entries {
      assert Registered(net, net.entries[a]);
    }
    forall b | 0 <= b < |net.boxes| && net.boxes[b].phase.Live?
      ensures Registered(net, b)
    {
    }
  }

  /** A drop removes the owner's entry and no other. */
  lemma DropsOnlyItsOwn<A, P>(ops: seq<Op<A, P>>, b: nat)
    requires b < |Reached(ops).boxes| && Reached(ops).boxes[b].phase.Live?
    ensures var net, after := Reached(ops), Unlist(Reached(ops), b).net;
      forall a :: a in net.entries ==>
        if net.entries[a] == b then a !in after.entries else a in after.entries && after.entries[a] == net.entries[a]
  {
    assert Registered(Reached(ops), b);
  }

  /** The owner of a live box waits or gets something; its channel is never disconnected. */
  lemma NeverDisconnected<A, P>(ops: seq<Op<A, P>>, b: nat)
    requires b < |Reached(ops).boxes| && Reached(ops).boxes[b].phase.Live?
    ensures Take(Reached(ops), b).reply != Disconnected
  {
    var net := Reached(ops);
    assert Registered(net, b) && net.entries[net.boxes[b].addr] == b;
  }

  /** The owner of a live box gets the oldest item that it has not got yet, exactly if there is one. */
  lemma TakesTheOldest<A, P>(ops: seq<Op<A, P>>, b: nat)
    requires b < |Reached(ops).boxes| && Reached(ops).boxes[b].phase.Live?
    ensures var net := Reached(ops);
      var box, out := net.boxes[b], Take(net, b);
      && (out.reply.Got? <==> |box.taken| < |box.posted|)
      && (out.reply.Got? ==> out.reply.item == box.posted[|box.taken|] && out.net.boxes[b].taken == box.taken + [out.reply.item])
  {
    assert InOrder(Reached(ops).boxes[b]);
  }

  // ----- From one state to any later one -----

  predicate Later<A(==), P(==)>(earlier: Box<A, P>, later: Box<A, P>) {
    && later.addr == earlier.addr && (earlier.phase.Gone? ==> later.phase.Gone?)
    && earlier.posted <= later.posted && earlier.taken <= later.taken
  }

  lemma StepLater<A, P>(net: Net<A, P>, op: Op<A, P>, b: nat)
    requires Inv(net) && Enabled(net, op) && b < |net.boxes|
    ensures b < |Step(net, op).net.boxes| && Later(net.boxes[b], Step(net, op).net.boxes[b])
  {
  }

  /** Boxes may grow in what was taken, and come anew; their channels stay. */
  ghost predicate Same<A, P>(a: seq<Box<A, P>>, b: seq<Box<A, P>>) {
    && |a| <= |b|
    && (forall l :: 0 <= l < |a| ==>
          b[l].posted == a[l].posted && |a[l].taken| <= |b[l].taken| && b[l].phase.Gone? == a[l].phase.Gone?)
    && (forall l :: |a| <= l < |b| ==> b[l].posted == [])
  }

  lemma StepSame<A, P>(net: Net<A, P>, op: Op<A, P>)
    requires Inv(net) && Enabled(net, op) && !op.PostOp? && !op.CloseOp?
    ensures Same(net.boxes, Step(net, op).net.boxes)
  {
  }

  /** A box whose channel is gone stays so, and nothing more is taken from it. */
  lemma GoneStays<A, P>(net: Net<A, P>, op: Op<A, P>, b: nat)
    requires Inv(net) && Enabled(net, op) && b < |net.boxes| && net.boxes[b].phase.Gone?
    ensures var boxes := Step(net, op).net.boxes;
      b < |boxes| && boxes[b].phase.Gone? && boxes[b].taken == net.boxes[b].taken
  {
  }

  /** What was posted or taken stays so, in its place. */
  lemma {:induction false} HistoryGrows<A, P>(net: Net<A, P>, ops: seq<Op<A, P>>, b: nat)
    requires Inv(net) && b < |net.boxes|
    ensures b < |Exec(net, ops).boxes| && Later(net.boxes[b], Exec(net, ops).boxes[b])
    decreases |ops|
  {
    if ops != [] {
      if Enabled(net, ops[0]) {
        StepInv(net, ops[0]);
        StepLater(net, ops[0], b);
        HistoryGrows(Step(net, ops[0]).net, ops[1..], b);
      } else {
        HistoryGrows(net, ops[1..], b);
      }
    }
  }

  lemma {:induction false} SenderKept<A, P>(net: Net<A, P>, ops: seq<Op<A, P>>, thread: nat)
    requires Inv(net) && thread in net.senders
    requires forall i :: 0 <= i < |ops| ==> !(ops[i].PostOp? && ops[i].thread == thread)
    ensures thread in Exec(net, ops).senders && Exec(net, ops).senders[thread] == net.senders[thread]
    decreases |ops|
  {
    if ops != [] {
      if Enabled(net, ops[0]) {
        StepInv(net, ops[0]);
        SenderKept(Step(net, ops[0]).net, ops[1..], thread);
      } else {
        SenderKept(net, ops[1..], thread);
      }
    }
  }

  /** Whatever happens between the two steps of a connect, the item reaches the box that held the
      address at the lookup, or is refused, exactly if that box's channel is gone by then. A later
      holder of the same address never gets it. */
  lemma SentWhereFound<A, P>(net: Net<A, P>, thread: nat, a: A, between: seq<Op<A, P>>, item: P)
    requires Inv(net) && thread !in net.senders && a in net.entries
    requires forall i :: 0 <= i < |between| ==> !(between[i].PostOp? && between[i].thread == thread)
    ensures Inv(LookUp(net, thread, a).net)
    ensures var found := net.entries[a];
      var at := Exec(LookUp(net, thread, a).net, between);
      && thread in at.senders && at.senders[thread] == found < |at.boxes|
      && var after := Post(at, thread, item);
         after.reply == Done ==>
           && after.net.boxes[found].posted == at.boxes[found].posted + [item]
           && after.net.boxes[found].queue == at.boxes[found].queue + [item]
    ensures var found := net.entries[a];
      var at := Exec(LookUp(net, thread, a).net, between);
      && thread in at.senders && at.senders[thread] == found < |at.boxes| && at.boxes[found].addr == a
      && Post(at, thread, item).reply == (if at.boxes[found].phase.Gone? then ConnectionRefused else Done)
      && (Post(at, thread, item).reply != Done ==> Post(at, thread, item).net.boxes == at.boxes)
      && (forall c :: 0 <= c < |at.boxes| && c != found ==> Post(at, thread, item).net.boxes[c] == at.boxes[c])
  {
    StepInv(net, LookUpOp(thread, a));
    var looked := LookUp(net, thread, a).net;
    SenderKept(looked, between, thread);
    HistoryGrows(looked, between, net.entries[a]);
  }

  // ----- Datagrams -----

  /** `send_to` looks up and sends without letting go of the registry, and ignores failure. */
  function SendTo<A(==), P>(net: Net<A, P>, a: A, item: P): Net<A, P>
    requires forall a :: a in net.entries ==> net.entries[a] < |net.boxes|
  {
    if a !in net.entries then net
    else
      var b := net.entries[a];
      var box := net.boxes[b];
      if box.phase.Gone? then net
      else net.(boxes := net.boxes[b := box.(queue := box.queue + [item], posted := box.posted + [item])])
  }

  /** A datagram to a bound address is never lost; to any other, it vanishes without a trace. It
      is the two steps of a connect with nothing in between. */
  lemma DatagramArrives<A, P>(ops: seq<Op<A, P>>, a: A, item: P, thread: nat)
    requires thread !in Reached(ops).senders
    ensures var net := Reached(ops);
      LiveAt(net, a) ==>
        exists b :: 0 <= b < |net.boxes| && net.boxes[b].addr == a && SendTo(net, a, item).boxes[b].queue == net.boxes[b].queue + [item]
    ensures !LiveAt(Reached(ops), a) ==> SendTo(Reached(ops), a, item) == Reached(ops)
    ensures LiveAt(Reached(ops), a) ==> SendTo(Reached(ops), a, item) == Post(LookUp(Reached(ops), thread, a).net, thread, item).net
  {
    var net := Reached(ops);
    KeysAreLive(ops, a, thread);
    if a in net.entries {
      var b := net.entries[a];
      assert Registered(net, b);
      assert SendTo(net, a, item).boxes[b].queue == net.boxes[b].queue + [item];
      assert net.senders[thread := b] - {thread} == net.senders;
    }
  }
}

/** A registry updated in place, step by step as the calls of the in-memory network do
    (crates/platform-mock/src/net.rs); each step is the one `Mailboxes` reasons about. */
module MockRegistry {
  import opened Mailboxes

  class Registry<!A(==), P> {
    var entries: map<A, nat>
    var boxes: seq<Box<A, P>>
    var senders: map<nat, nat>

    function State(): Net<A, P>
      reads this
    {
      Net(entries, boxes, senders)
    }

    constructor ()
      ensures State() == Net(map[], [], map[]) && Inv(State())
    {
      entries, boxes, senders := map[], [], map[];
    }

    /** `tcp_listen`, `unix_listen`, `udp_bind`: check and insert under one lock. */
    method Listen(a: A) returns (reply: Reply<P>)
      requires Inv(State())
      modifies this
      ensures Inv(State()) && Outcome(State(), reply) == Bind(old(State()), a)
    {
      StepInv(State(), BindOp(a));
      if a in entries {
        return AddrInUse;
      }
      entries := entries[a := |boxes|];
      boxes := boxes + [Box(a, Live, [], [], [])];
      reply := Done;
    }

    method FindSender(thread: nat, a: A) returns (reply: Reply<P>)
      requires Inv(State()) && thread !in senders
      modifies this
      ensures Inv(State()) && Outcome(State(), reply) == LookUp(old(State()), thread, a)
    {
      if a !in entries {
        return ConnectionRefused;
      }
      senders := senders[thread := entries[a]];
      reply := Done;
    }

    method Send(thread: nat, item: P) returns (reply: Reply<P>)
      requires Inv(State()) && thread in senders
      modifies this
      ensures Inv(State()) && Outcome(State(), reply) == Post(old(State()), thread, item)
    {
      PostInv(State(), thread, item);
      var b := senders[thread];
      senders := senders - {thread};
      if boxes[b].phase.Gone? {
        return ConnectionRefused;
      }
      var box := boxes[b];
      boxes := boxes[b := box.(queue := box.queue + [item], posted := box.posted + [item])];
      reply := Done;
    }

    method Receive(b: nat) returns (reply: Reply<P>)
      requires Inv(State()) && b < |boxes|
      modifies this
      ensures Inv(State()) && Outcome(State(), reply) == Take(old(State()), b)
      ensures entries == old(entries) && senders == old(senders) && |boxes| == |old(boxes)|
      ensures forall c :: 0 <= c < |boxes| && c != b ==> boxes[c] == old(boxes)[c]
      ensures reply.Got? <==> |old(boxes)[b].taken| < |old(boxes)[b].posted| && !old(boxes)[b].phase.Gone?
      ensures reply.Got? ==> reply.item == boxes[b].posted[|old(boxes)[b].taken|]
      ensures reply.Got? ==> boxes[b].taken == old(boxes)[b].taken + [reply.item]
      ensures !reply.Got? ==> boxes[b] == old(boxes)[b]
    {
      TakeInv(State(), b);
      assert InOrder(boxes[b]);
      var box := boxes[b];
      if box.queue == [] {
        return if HasSender(State(), b) then Blocked else Disconnected;
      }
      boxes := boxes[b := box.(queue := box.queue[1..], taken := box.taken + [box.queue[0]])];
      reply := Got(box.queue[0]);
    }

    /** `drop`, the body: the entry goes. */
    method DropEntry(b: nat)
      requires Inv(State()) && b < |boxes| && boxes[b].phase.Live?
      modifies this
      ensures Inv(State()) && State() == Unlist(old(State()), b).net
    {
      UnlistInv(State(), b);
      entries := entries - {boxes[b].addr};
      boxes := boxes[b := boxes[b].(phase := Unlisted)];
    }

    /** `drop`, the fields: the receiver goes. */
    method DropChannel(b: nat)
      requires Inv(State()) && b < |boxes| && boxes[b].phase.Unlisted?
      modifies this
      ensures Inv(State()) && State() == Close(old(State()), b).net
    {
      StepInv(State(), CloseOp(b));
      boxes := boxes[b := boxes[b].(phase := Gone, queue := [])];
    }
  }
}

/** Connections over a registry: what `tcp_connect` and `unix_connect` put together, and what
    `accept` hands out (crates/platform-mock/src/net.rs). */
module MockConnect {
  import opened Wrappers
  import opened Mailboxes

  /** A stream: its two channels and its two addresses; a Unix client has none. */
  datatype End<!A> = End(tx: nat, rx: nat, local: Option<A>, peer: Option<A>)

  /** What is sent to the listener: its end of the connection, and the client's address. */
  datatype Message<!A> = Message(server: End<A>, from: Option<A>)

  /** The two ends over a pair of fresh channels, `channel` towards the server and the next one
      back. */
  function ServerEnd<A>(channel: nat, addr: A, from: Option<A>): End<A> {
    End(channel + 1, channel, Some(addr), from)
  }

  function ClientEnd<A>(channel: nat, addr: A, from: Option<A>): End<A> {
    End(channel, channel + 1, from, Some(addr))
  }

  /** `asked`: the address a thread looked up. `clients`: for each listener, the ends that its
      connects have returned to their callers, in order. */
  datatype World<!A(==)> = World(net: Net<A, Message<A>>, channels: nat, asked: map<nat, A>, clients: seq<seq<End<A>>>)

  datatype Call<A> =
    | Listen(addr: A)
    | StartConnect(thread: nat, addr: A)
    | FinishConnect(thread: nat, from: Option<A>)
    | Accept(listener: nat)
    | StartDrop(listener: nat)
    | FinishDrop(listener: nat)

  function AsOp<A(==)>(w: World<A>, call: Call<A>): Op<A, Message<A>>
    requires call.FinishConnect? ==> call.thread in w.asked
  {
    match call
    case Listen(a) => BindOp(a)
    case StartConnect(thread, a) => LookUpOp(thread, a)
    case FinishConnect(thread, from) => PostOp(thread, Message(ServerEnd(w.channels, w.asked[thread], from), from))
    case Accept(l) => TakeOp(l)
    case StartDrop(l) => UnlistOp(l)
    case FinishDrop(l) => CloseOp(l)
  }

  predicate Possible<A(==)>(w: World<A>, call: Call<A>) {
    (call.FinishConnect? ==> call.thread in w.asked) && Enabled(w.net, AsOp(w, call))
  }

  /** A connect that succeeds returns its client end. */
  function Returned<A(==)>(w: World<A>, call: Call<A>, done: bool): seq<seq<End<A>>> {
    if call.Listen? && done then w.clients + [[]]
    else if call.FinishConnect? && done && call.thread in w.asked && call.thread in w.net.senders
      && w.net.senders[call.thread] < |w.clients| then
      var b := w.net.senders[call.thread];
      w.clients[b := w.clients[b] + [ClientEnd(w.channels, w.asked[call.thread], call.from)]]
    else w.clients
  }

  ghost function Advance<A>(w: World<A>, call: Call<A>): World<A>
    requires Inv(w.net) && Possible(w, call)
  {
    var out := Step(w.net, AsOp(w, call));
    var asked := if call.StartConnect? && out.reply == Done then w.asked[call.thread := call.addr]
                 else if call.FinishConnect? then w.asked - {call.thread}
                 else w.asked;
    World(out.net, if call.FinishConnect? then w.channels + 2 else w.channels, asked, Returned(w, call, out.reply == Done))
  }

  // ----- The invariant -----

  /** Each end writes what the other reads, and each is the other's peer. */
  predicate CrossWired<A(==)>(server: End<A>, client: End<A>) {
    && server.tx == client.rx && server.rx == client.tx && server.tx != server.rx
    && server.local == client.peer && server.peer == client.local
  }

  predicate Share<A>(c: End<A>, d: End<A>) {
    c.tx == d.tx || c.tx == d.rx || c.rx == d.tx || c.rx == d.rx
  }

  predicate Proper<A(==)>(m: Message<A>, client: End<A>, addr: A, channels: nat) {
    CrossWired(m.server, client) && m.from == client.local && client.peer == Some(addr) && client.tx < channels && client.rx < channels
  }

  type Boxes<!A> = seq<Box<A, Message<A>>>
  type Clients<!A> = seq<seq<End<A>>>

  predicate Has<A>(clients: Clients<A>, l: int, i: int) {
    0 <= l < |clients| && 0 <= i < |clients[l]|
  }

  /** As many clients as messages, listener by listener. */
  ghost predicate Matched<A>(boxes: Boxes<A>, clients: Clients<A>) {
    |clients| == |boxes| && forall l :: 0 <= l < |boxes| ==> |clients[l]| == |boxes[l].posted|
  }

  ghost predicate AllProper<A>(boxes: Boxes<A>, clients: Clients<A>, channels: nat)
    requires Matched(boxes, clients)
  {
    forall l, i :: Has(clients, l, i) ==> Proper(boxes[l].posted[i], clients[l][i], boxes[l].addr, channels)
  }

  /** No two connections share a channel. */
  ghost predicate Apart<A>(clients: Clients<A>) {
    forall l, i, m, j :: Has(clients, l, i) && Has(clients, m, j) && Share(clients[l][i], clients[m][j]) ==> l == m && i == j
  }

  /** Every thread between its two steps holds the sender of the address it asked for. */
  ghost predicate Agree<A>(asked: map<nat, A>, senders: map<nat, nat>, boxes: Boxes<A>) {
    asked.Keys == senders.Keys && forall t :: t in senders ==> senders[t] < |boxes| && boxes[senders[t]].addr == asked[t]
  }

  ghost predicate Connected<A>(boxes: Boxes<A>, clients: Clients<A>, channels: nat) {
    Matched(boxes, clients) && AllProper(boxes, clients, channels) && Apart(clients)
  }

  ghost predicate Wired<A>(w: World<A>) {
    Inv(w.net) && Agree(w.asked, w.net.senders, w.net.boxes) && Connected(w.net.boxes, w.clients, w.channels)
  }

  /** All that was posted is as it was; new boxes are empty, and have no clients. */
  ghost predicate Carried<A>(a: Boxes<A>, b: Boxes<A>, before: Clients<A>, after: Clients<A>)
    requires |before| == |a|
  {
    && |a| <= |b| == |after|
    && (forall l :: 0 <= l < |a| ==> b[l].posted == a[l].posted && b[l].addr == a[l].addr && after[l] == before[l])
    && (forall l :: |a| <= l < |b| ==> b[l].posted == [] && after[l] == [])
  }

  lemma CarriedKeeps<A>(a: Boxes<A>, b: Boxes<A>, before: Clients<A>, after: Clients<A>, channels: nat, more: nat)
    requires Connected(a, before, channels) && channels <= more && Carried(a, b, before, after)
    ensures Connected(b, after, more)
  {
    forall l, i | Has(after, l, i)
      ensures Has(before, l, i) && Proper(b[l].posted[i], after[l][i], b[l].addr, more)
    {
      assert Has(before, l, i);
    }
  }

  lemma AddedKeeps<A>(a: Boxes<A>, before: Clients<A>, at: nat, item: Message<A>, client: End<A>, channels: nat,
    b: Boxes<A>, after: Clients<A>)
    requires at < |a| && Connected(a, before, channels)
    requires Proper(item, client, a[at].addr, channels + 2) && client.tx >= channels && client.rx >= channels
    requires b == a[at := a[at].(queue := a[at].queue + [item], posted := a[at].posted + [item])]
    requires after == before[at := before[at] + [client]]
    ensures Connected(b, after, channels + 2)
  {
    forall l, i | Has(after, l, i)
      ensures Has(before, l, i) ==> after[l][i] == before[l][i] && b[l].posted[i] == a[l].posted[i]
      ensures Has(before, l, i) ==> Proper(a[l].posted[i], before[l][i], a[l].addr, channels)
      ensures !Has(before, l, i) ==> l == at && i == |before[at]| && after[l][i] == client && b[l].posted[i] == item
    {
    }
  }

  lemma ListenCarries<A>(w: World<A>, call: Call<A>)
    requires Wired(w) && Possible(w, call) && (call.Listen? || call.StartConnect?)
    ensures Carried(w.net.boxes, Advance(w, call).net.boxes, w.clients, Advance(w, call).clients)
  {
  }

  lemma OwnerCarries<A>(w: World<A>, call: Call<A>)
    requires Wired(w) && Possible(w, call) && (call.Accept? || call.StartDrop? || call.FinishDrop?)
    ensures Carried(w.net.boxes, Advance(w, call).net.boxes, w.clients, Advance(w, call).clients)
  {
  }

  lemma OthersCarry<A>(w: World<A>, call: Call<A>)
    requires Wired(w) && Possible(w, call) && !call.FinishConnect?
    ensures Carried(w.net.boxes, Advance(w, call).net.boxes, w.clients, Advance(w, call).clients)
  {
    if call.Listen? || call.StartConnect? {
      ListenCarries(w, call);
    } else {
      OwnerCarries(w, call);
    }
  }

  lemma AgreeLater<A>(asked: map<nat, A>, senders: map<nat, nat>, a: Boxes<A>, b: Boxes<A>)
    requires Agree(asked, senders, a) && |a| <= |b| && forall l :: 0 <= l < |a| ==> b[l].addr == a[l].addr
    ensures Agree(asked, senders, b)
  {
  }

  lemma SendAgrees<A>(w: World<A>, call: Call<A>)
    requires Wired(w) && Possible(w, call) && call.FinishConnect?
    ensures var after := Advance(w, call); Agree(after.asked, after.net.senders, after.net.boxes)
  {
    AgreeLater(w.asked - {call.thread}, w.net.senders - {call.thread}, w.net.boxes, Advance(w, call).net.boxes);
  }

  lemma LookUpAgrees<A>(w: World<A>, call: Call<A>)
    requires Wired(w) && Possible(w, call) && call.StartConnect?
    ensures var after := Advance(w, call); Agree(after.asked, after.net.senders, after.net.boxes)
  {
  }

  lemma OthersAgree<A>(w: World<A>, call: Call<A>)
    requires Wired(w) && Possible(w, call) && !call.FinishConnect? && !call.StartConnect?
    ensures var after := Advance(w, call); Agree(after.asked, after.net.senders, after.net.boxes)
  {
    OthersCarry(w, call);
    AgreeLater(w.asked, w.net.senders, w.net.boxes, Advance(w, call).net.boxes);
  }

  lemma SendKeeps<A>(w: World<A>, call: Call<A>)
    requires Wired(w) && Possible(w, call) && call.FinishConnect?
    ensures Connected(Advance(w, call).net.boxes, Advance(w, call).clients, w.channels + 2)
  {
    var b, addr := w.net.senders[call.thread], w.asked[call.thread];
    var item, client := Message(ServerEnd(w.channels, addr, call.from), call.from), ClientEnd(w.channels, addr, call.from);
    if w.net.boxes[b].phase.Gone? {
      CarriedKeeps(w.net.boxes, w.net.boxes, w.clients, w.clients, w.channels, w.channels + 2);
    } else {
      AddedKeeps(w.net.boxes, w.clients, b, item, client, w.channels, Advance(w, call).net.boxes, Advance(w, call).clients);
    }
  }

  lemma AdvanceWired<A>(w: World<A>, call: Call<A>)
    requires Wired(w) && Possible(w, call)
    ensures Wired(Advance(w, call))
  {
    StepInv(w.net, AsOp(w, call));
    if call.FinishConnect? {
      SendAgrees(w, call);
      SendKeeps(w, call);
    } else {
      if call.StartConnect? {
        LookUpAgrees(w, call);
      } else {
        OthersAgree(w, call);
      }
      OthersCarry(w, call);
      CarriedKeeps(w.net.boxes, Advance(w, call).net.boxes, w.clients, Advance(w, call).clients, w.channels, w.channels);
    }
  }

  // ----- Runs -----

  ghost function History<A>(w: World<A>, calls: seq<Call<A>>): (after: World<A>)
    requires Wired(w)
    ensures Wired(after)
    decreases |calls|
  {
    if calls == [] then w
    else if !Possible(w, calls[0]) then History(w, calls[1..])
    else AdvanceWired(w, calls[0]); History(Advance(w, calls[0]), calls[1..])
  }

  ghost function After<A>(calls: seq<Call<A>>): World<A> {
    History(World(Net(map[], [], map[]), 0, map[], []), calls)
  }

  /** In every reachable state, the i-th stream a listener handed out is cross-wired to the end that
      the i-th connect to that listener returned, which had asked for its address; the address
      handed out with it is that client's; and no other connection of the run shares a channel
      with it. */
  lemma AcceptedInConnectOrder<A>(calls: seq<Call<A>>, l: nat, i: nat)
    requires l < |After(calls).net.boxes| && i < |After(calls).net.boxes[l].taken|
    ensures var w := After(calls);
      && Has(w.clients, l, i)
      && var accepted, client := w.net.boxes[l].taken[i], w.clients[l][i];
         && CrossWired(accepted.server, client) && accepted.from == client.local
         && client.peer == accepted.server.local == Some(w.net.boxes[l].addr)
    ensures var w := After(calls);
      forall m, j :: Has(w.clients, m, j) && Share(w.net.boxes[l].taken[i].server, w.clients[m][j]) ==> m == l && j == i
  {
    var w := After(calls);
    assert InOrder(w.net.boxes[l]);
    assert w.net.boxes[l].taken[i] == w.net.boxes[l].posted[i];
    assert Has(w.clients, l, i);
    assert Proper(w.net.boxes[l].posted[i], w.clients[l][i], w.net.boxes[l].addr, w.channels);
  }

  /** The stream that an `accept` then hands out is cross-wired to the end that the next connect in
      line returned; it hands one out exactly if there is such a connect. */
  lemma AcceptHandsOutTheNext<A>(calls: seq<Call<A>>, l: nat)
    requires l < |After(calls).net.boxes| && After(calls).net.boxes[l].phase.Live?
    ensures var w := After(calls);
      var box, reply := w.net.boxes[l], Take(w.net, l).reply;
      && (reply.Got? <==> Has(w.clients, l, |box.taken|))
      && (reply.Got? ==> var client := w.clients[l][|box.taken|];
            && CrossWired(reply.item.server, client) && reply.item.from == client.local
            && client.peer == reply.item.server.local == Some(box.addr))
  {
    var w := After(calls);
    var box := w.net.boxes[l];
    assert InOrder(box);
    if |box.taken| < |box.posted| {
      assert Has(w.clients, l, |box.taken|);
      assert Proper(box.posted[|box.taken|], w.clients[l][|box.taken|], box.addr, w.channels);
    }
  }

  /** The ends that connects returned stay in place, and in the order of the connects. */
  lemma {:induction false} ClientsGrow<A>(w: World<A>, calls: seq<Call<A>>, l: nat)
    requires Wired(w) && l < |w.clients|
    ensures l < |History(w, calls).clients| && w.clients[l] <= History(w, calls).clients[l]
    decreases |calls|
  {
    if calls != [] {
      if Possible(w, calls[0]) {
        AdvanceWired(w, calls[0]);
        ClientsGrow(Advance(w, calls[0]), calls[1..], l);
      } else {
        ClientsGrow(w, calls[1..], l);
      }
    }
  }

  // ----- Ephemeral ports -----

  /** The port of the k-th call of `next_ephemeral_port`. */
  function EphemeralPort(k: nat): nat {
    (40000 + k) % 0x1_0000
  }

  lemma Multiple(n: int, q: int, r: int)
    requires n == 0x1_0000 * q + r && -0x1_0000 < r < 0x1_0000
    ensures r == 0 <==> n % 0x1_0000 == 0
  {
  }

  lemma PortOf(k: nat, q: nat, r: nat)
    requires k == 0x1_0000 * q + r && r < 0x1_0000
    ensures EphemeralPort(k) == if r < 25536 then r + 40000 else r - 25536
  {
    var port := if r < 25536 then r + 40000 else r - 25536;
    var rounds := if r < 25536 then q else q + 1;
    assert 40000 + k == 0x1_0000 * rounds + port;
  }

  /** Two calls get the same port exactly when a multiple of 65536 calls apart, and the counter
      hands out port 0, which stands for "any port" elsewhere, once in every round. */
  lemma EphemeralRounds(i: nat, j: nat)
    requires i <= j
    ensures EphemeralPort(i) == EphemeralPort(j) <==> (j - i) % 0x1_0000 == 0
    ensures EphemeralPort(i) == 0 <==> i % 0x1_0000 == 25536
  {
    var q, p := (40000 + i) / 0x1_0000, (40000 + j) / 0x1_0000;
    Multiple(j - i, p - q, EphemeralPort(j) - EphemeralPort(i));
    PortOf(i, i / 0x1_0000, i % 0x1_0000);
  }
}

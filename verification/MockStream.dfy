/** One in-memory connection: two streams, joined by a channel in each direction
    (crates/platform-mock/src/net.rs). */
module MockStream {
  import opened Wrappers
  import Endian

  type Data = seq<Endian.Octet>

  function Flatten(chunks: seq<Data>): Data {
    if chunks == [] then [] else chunks[0] + Flatten(chunks[1..])
  }

  // ----- One direction -----

  /** The channel, and the chunk its reader is working through. */
  datatype Flow = Flow(queue: seq<Data>, readBuf: Data, readPos: nat, senderGone: bool, receiverGone: bool)

  /** `Blocked`: the call does not return before something else happens. */
  datatype ReadReply = Bytes(data: Data) | WouldBlock | Blocked

  datatype ReadOutcome = ReadOutcome(flow: Flow, reply: ReadReply)

  function Deliver(flow: Flow, size: nat): ReadOutcome
    requires flow.readPos <= |flow.readBuf|
  {
    var n := Min(size, |flow.readBuf| - flow.readPos);
    ReadOutcome(flow.(readPos := flow.readPos + n), Bytes(flow.readBuf[flow.readPos..flow.readPos + n]))
  }

  /** `read` into a buffer of `size` bytes: a new chunk is only fetched when the last one is used up. */
  function Read(flow: Flow, size: nat, timeout: bool): ReadOutcome {
    if flow.readPos < |flow.readBuf| then Deliver(flow, size)
    else if flow.queue != [] then Deliver(flow.(queue := flow.queue[1..], readBuf := flow.queue[0], readPos := 0), size)
    else if flow.senderGone then ReadOutcome(flow, Bytes([]))
    else ReadOutcome(flow, if timeout then WouldBlock else Blocked)
  }

  /** `write`: the whole slice is one chunk, even if it is empty; false is `BrokenPipe`. */
  function Write(flow: Flow, bytes: Data): (Flow, bool) {
    if flow.receiverGone then (flow, false) else (flow.(queue := flow.queue + [bytes]), true)
  }

  function DropSender(flow: Flow): Flow {
    flow.(senderGone := true)
  }

  /** Dropping the receiver discards what is queued. */
  function DropReceiver(flow: Flow): Flow {
    flow.(receiverGone := true, queue := [], readBuf := [], readPos := 0)
  }

  // ----- The stream objects -----

  class Channel {
    var queue: seq<Data>
    var senderGone: bool
    var receiverGone: bool

    constructor ()
      ensures queue == [] && !senderGone && !receiverGone
    {
      queue, senderGone, receiverGone := [], false, false;
    }
  }

  class Stream {
    const tx: Channel
    const rx: Channel
    var readBuf: Data
    var readPos: nat
    var timeout: bool

    function Incoming(): Flow
      reads this, rx
    {
      Flow(rx.queue, readBuf, readPos, rx.senderGone, rx.receiverGone)
    }

    constructor (tx: Channel, rx: Channel)
      ensures this.tx == tx && this.rx == rx && readBuf == [] && readPos == 0 && !timeout
    {
      this.tx, this.rx := tx, rx;
      readBuf, readPos, timeout := [], 0, false;
    }

    /** Fetches the next chunk if the last one is used up; if there is none, the read ends here. */
    method Refill() returns (early: Option<ReadReply>)
      modifies this, rx
      ensures timeout == old(timeout) && rx.senderGone == old(rx.senderGone) && rx.receiverGone == old(rx.receiverGone)
      ensures old(readPos) < |old(readBuf)| || old(rx.queue) != [] <==> early.None?
      ensures old(readPos) < |old(readBuf)| || old(rx.queue) == [] ==> Incoming() == old(Incoming())
      ensures old(readPos) >= |old(readBuf)| && old(rx.queue) != [] ==>
        readBuf == old(rx.queue)[0] && readPos == 0 && rx.queue == old(rx.queue)[1..]
      ensures early.Some? ==> early.value == if rx.senderGone then Bytes([]) else if timeout then WouldBlock else Blocked
    {
      early := None;
      if readPos >= |readBuf| {
        if rx.queue == [] {
          return Some(if rx.senderGone then Bytes([]) else if timeout then WouldBlock else Blocked);
        }
        readBuf := rx.queue[0];
        rx.queue := rx.queue[1..];
        readPos := 0;
      }
    }

    method ReadInto(buf: array<Endian.Octet>) returns (reply: ReadReply)
      modifies this, rx, buf
      ensures ReadOutcome(Incoming(), reply) == Read(old(Incoming()), buf.Length, old(timeout))
      ensures reply.Bytes? ==> |reply.data| <= buf.Length && buf[..] == reply.data + old(buf[..])[|reply.data|..]
      ensures !reply.Bytes? ==> buf[..] == old(buf[..])
      ensures reply.Bytes? && |reply.data| < buf.Length ==> readPos >= |readBuf|
      ensures timeout == old(timeout)
    {
      var early := Refill();
      if early.Some? {
        assert buf[..] == [] + old(buf[..])[0..];
        return early.value;
      }
      var n := Min(buf.Length, |readBuf| - readPos);
      reply := Bytes(readBuf[readPos..readPos + n]);
      CopyOut(buf, reply.data);
      readPos := readPos + n;
    }

    /** `buf[..|bytes|].copy_from_slice(bytes)` */
    method CopyOut(buf: array<Endian.Octet>, bytes: Data)
      requires |bytes| <= buf.Length
      modifies buf
      ensures buf[..] == bytes + old(buf[..])[|bytes|..]
    {
      forall i | 0 <= i < |bytes| {
        buf[i] := bytes[i];
      }
    }

    method WriteAll(bytes: Data) returns (ok: bool)
      modifies tx
      ensures ok <==> !old(tx.receiverGone)
      ensures tx.queue == if ok then old(tx.queue) + [bytes] else old(tx.queue)
      ensures tx.senderGone == old(tx.senderGone) && tx.receiverGone == old(tx.receiverGone)
    {
      ok := !tx.receiverGone;
      if ok {
        tx.queue := tx.queue + [bytes];
      }
    }

    /** Dropping a stream drops its half of both channels. */
    method Drop()
      requires tx != rx
      modifies this, tx, rx
      ensures Incoming() == DropReceiver(old(Incoming()))
      ensures tx.senderGone && tx.queue == old(tx.queue) && tx.receiverGone == old(tx.receiverGone)
    {
      tx.senderGone := true;
      rx.receiverGone, rx.queue := true, [];
      readBuf, readPos := [], 0;
    }
  }

  // ----- Both directions, under any interleaving -----

  datatype End = Client | Server

  datatype Op = ReadOp(end: End, size: nat, timeout: bool) | WriteOp(end: End, bytes: Data) | StartDrop(end: End) | FinishDrop(end: End)

  /** The bytes a direction has carried so far, and whether an empty slice was among the writes. */
  datatype Account = Account(flow: Flow, written: Data, delivered: Data, emptyWrite: bool)

  const FRESH := Account(Flow([], [], 0, false, false), [], [], false)

  /** Each account is named after its reader. */
  datatype Connection = Connection(toClient: Account, toServer: Account)

  const OPENED := Connection(FRESH, FRESH)

  function Towards(c: Connection, end: End): Account {
    if end.Client? then c.toClient else c.toServer
  }

  function Other(end: End): End {
    if end.Client? then Server else Client
  }

  function With(c: Connection, end: End, account: Account): Connection {
    if end.Client? then c.(toClient := account) else c.(toServer := account)
  }

  function Reading(a: Account, size: nat, timeout: bool): Account {
    var out := Read(a.flow, size, timeout);
    a.(flow := out.flow, delivered := a.delivered + if out.reply.Bytes? then out.reply.data else [])
  }

  function Writing(a: Account, bytes: Data): Account {
    var (flow, ok) := Write(a.flow, bytes);
    if ok then a.(flow := flow, written := a.written + bytes, emptyWrite := a.emptyWrite || bytes == []) else a
  }

  /** The drop of an end has begun: it sends no more. */
  predicate Dropping(c: Connection, end: End) {
    Towards(c, Other(end)).flow.senderGone
  }

  /** A stream drops its sender first, then its receiver; once it has begun it is not used any
      more. */
  function Step(c: Connection, op: Op): Connection {
    var mine, theirs := Towards(c, op.end), Towards(c, Other(op.end));
    if Dropping(c, op.end) then
      if op.FinishDrop? then With(c, op.end, mine.(flow := DropReceiver(mine.flow))) else c
    else
      match op
      case ReadOp(end, size, timeout) => With(c, end, Reading(mine, size, timeout))
      case WriteOp(end, bytes) => With(c, Other(end), Writing(theirs, bytes))
      case StartDrop(end) => With(c, Other(end), theirs.(flow := DropSender(theirs.flow)))
      case FinishDrop(_) => c
  }

  function Exec(c: Connection, ops: seq<Op>): Connection
    decreases |ops|
  {
    if ops == [] then c else Exec(Step(c, ops[0]), ops[1..])
  }

  predicate Conserved(a: Account) {
    var flow := a.flow;
    && flow.readPos <= |flow.readBuf|
    && a.delivered <= a.written
    && (!flow.receiverGone ==> a.delivered + flow.readBuf[flow.readPos..] + Flatten(flow.queue) == a.written)
    && (!a.emptyWrite ==> forall i :: 0 <= i < |flow.queue| ==> flow.queue[i] != [])
  }

  lemma {:induction false} FlattenAppend(a: seq<Data>, chunk: Data)
    ensures Flatten(a + [chunk]) == Flatten(a) + chunk
    decreases |a|
  {
    if a == [] {
      assert a + [chunk] == [chunk];
    } else {
      assert (a + [chunk])[1..] == a[1..] + [chunk];
      FlattenAppend(a[1..], chunk);
    }
  }

  /** Taking bytes off what lies ahead. */
  lemma TakeFront(delivered: Data, got: Data, left: Data, behind: Data)
    ensures delivered + (got + left) + behind == delivered + got + left + behind
    ensures delivered + got <= delivered + (got + left) + behind
  {
  }

  lemma SplitAt(buf: Data, pos: nat, n: nat)
    requires pos + n <= |buf|
    ensures buf[pos..] == buf[pos..pos + n] + buf[pos + n..]
  {
  }

  lemma DeliverConserves(a: Account, size: nat)
    requires Conserved(a) && !a.flow.receiverGone
    ensures var out := Deliver(a.flow, size);
      Conserved(a.(flow := out.flow, delivered := a.delivered + out.reply.data))
  {
    var buf, pos, n := a.flow.readBuf, a.flow.readPos, Min(size, |a.flow.readBuf| - a.flow.readPos);
    SplitAt(buf, pos, n);
    TakeFront(a.delivered, buf[pos..pos + n], buf[pos + n..], Flatten(a.flow.queue));
  }

  lemma FetchConserves(a: Account)
    requires Conserved(a) && !a.flow.receiverGone && a.flow.readPos == |a.flow.readBuf| && a.flow.queue != []
    ensures Conserved(a.(flow := a.flow.(queue := a.flow.queue[1..], readBuf := a.flow.queue[0], readPos := 0)))
  {
    var flow := a.flow;
    assert flow.readBuf[flow.readPos..] == [] && flow.queue[0][0..] == flow.queue[0];
    assert a.delivered + [] + Flatten(flow.queue) == a.delivered + flow.queue[0] + Flatten(flow.queue[1..]);
  }

  lemma ReadConserves(a: Account, size: nat, timeout: bool)
    requires Conserved(a) && !a.flow.receiverGone
    ensures Conserved(Reading(a, size, timeout))
  {
    var flow := a.flow;
    if flow.readPos < |flow.readBuf| {
      DeliverConserves(a, size);
    } else if flow.queue != [] {
      var fetched := flow.(queue := flow.queue[1..], readBuf := flow.queue[0], readPos := 0);
      FetchConserves(a);
      DeliverConserves(a.(flow := fetched), size);
    } else {
      assert a.delivered + [] == a.delivered;
    }
  }

  lemma WriteConserves(a: Account, bytes: Data)
    requires Conserved(a)
    ensures Conserved(Writing(a, bytes))
  {
    FlattenAppend(a.flow.queue, bytes);
    var ahead := a.delivered + a.flow.readBuf[a.flow.readPos..];
    assert ahead + (Flatten(a.flow.queue) + bytes) == ahead + Flatten(a.flow.queue) + bytes;
  }

  predicate AllConserved(c: Connection) {
    Conserved(c.toClient) && Conserved(c.toServer)
  }

  /** A receiver goes only after the sender of the same end. */
  predicate DropsAgree(c: Connection) {
    (c.toClient.flow.receiverGone ==> Dropping(c, Client)) && (c.toServer.flow.receiverGone ==> Dropping(c, Server))
  }

  lemma StepConserves(c: Connection, op: Op)
    requires AllConserved(c) && DropsAgree(c)
    ensures AllConserved(Step(c, op)) && DropsAgree(Step(c, op))
  {
    if !Dropping(c, op.end) {
      match op
      case ReadOp(end, size, timeout) => ReadConserves(Towards(c, end), size, timeout);
      case WriteOp(end, bytes) => WriteConserves(Towards(c, Other(end)), bytes);
      case _ =>
    }
  }

  lemma {:induction false} ExecConserves(c: Connection, ops: seq<Op>)
    requires AllConserved(c) && DropsAgree(c)
    ensures AllConserved(Exec(c, ops)) && DropsAgree(Exec(c, ops))
    decreases |ops|
  {
    if ops != [] {
      StepConserves(c, ops[0]);
      ExecConserves(Step(c, ops[0]), ops[1..]);
    }
  }

  /** Whatever the two ends do, in any order: what was delivered, what the reader still has of its
      chunk and what is queued are together exactly what was written; a dropped reader has
      received a front part of it. */
  lemma NothingLost(ops: seq<Op>, end: End)
    ensures var a := Towards(Exec(OPENED, ops), end);
      && a.delivered <= a.written
      && a.flow.readPos <= |a.flow.readBuf|
      && (!a.flow.receiverGone ==> a.delivered + a.flow.readBuf[a.flow.readPos..] + Flatten(a.flow.queue) == a.written)
  {
    ExecConserves(OPENED, ops);
  }

  // ----- End of stream -----

  /** Without empty writes, a read into a nonempty buffer returns 0 exactly when the peer is gone
      and everything it wrote has been delivered. */
  lemma EndOfStream(ops: seq<Op>, end: End, size: nat, timeout: bool)
    requires size > 0 && !Dropping(Exec(OPENED, ops), end) && !Towards(Exec(OPENED, ops), end).emptyWrite
    ensures var c := Exec(OPENED, ops);
      Read(Towards(c, end).flow, size, timeout).reply == Bytes([]) <==>
        Dropping(c, Other(end)) && Towards(c, end).delivered == Towards(c, end).written
  {
    ExecConserves(OPENED, ops);
    var a := Towards(Exec(OPENED, ops), end);
    var ahead := a.flow.readBuf[a.flow.readPos..];
    if a.flow.queue != [] {
      assert |Flatten(a.flow.queue)| >= |a.flow.queue[0]| > 0;
    }
    assert |a.written| == |a.delivered| + |ahead| + |Flatten(a.flow.queue)|;
    ZeroRead(a.flow, size, timeout);
  }

  /** In general it returns 0 exactly at the end of the stream or on an empty chunk, dropped peer
      or not. */
  lemma ZeroRead(flow: Flow, size: nat, timeout: bool)
    requires size > 0 && flow.readPos <= |flow.readBuf|
    ensures Read(flow, size, timeout).reply == Bytes([]) <==>
      flow.readPos == |flow.readBuf| && (if flow.queue == [] then flow.senderGone else flow.queue[0] == [])
  {
    if flow.readPos < |flow.readBuf| {
      assert |Deliver(flow, size).reply.data| > 0;
    } else if flow.queue != [] {
      var fetched := flow.(queue := flow.queue[1..], readBuf := flow.queue[0], readPos := 0);
      assert |Deliver(fetched, size).reply.data| == Min(size, |flow.queue[0]|);
    }
  }

  /** One empty write is enough for a live peer to look closed. */
  lemma EmptyWriteLooksClosed()
    ensures var c := Exec(OPENED, [WriteOp(Client, [])]);
      !Dropping(c, Client) && Read(Towards(c, Server).flow, 1, false).reply == Bytes([])
  {
    var ops := [WriteOp(Client, [])];
    assert ops[1..] == [];
    assert Exec(OPENED, ops) == Step(OPENED, ops[0]);
  }

  /** Between the two steps of a drop the peer reads the end of the stream, and can still write
      without an error. */
  lemma HalfDropped(bytes: Data)
    ensures var c := Exec(OPENED, [StartDrop(Client)]);
      Read(Towards(c, Server).flow, 1, false).reply == Bytes([]) && Write(Towards(c, Client).flow, bytes).1
  {
    var ops := [StartDrop(Client)];
    assert ops[1..] == [];
    assert Exec(OPENED, ops) == Step(OPENED, ops[0]);
  }
}

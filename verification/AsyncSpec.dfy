/** The command and callback engine of async.c on values: contexts with no
    subscribe or monitor command. User callbacks may issue commands, disconnect
    and free the context while they run; what the n-th of them does is given by a
    function, so statements about every such function cover every client. */
module AsyncSpec {
  import opened Bytes
  import opened Resp
  import opened OutputBuffer

  /** `redisCallback`: whether it has a function, and the caller's data. */
  datatype Callback = Callback(hasFn: bool, privdata: int)

  /** A command that was accepted, with the callback that waits for its reply. */
  datatype Issued = Issued(cb: Callback, cmd: seq<byte>)

  /** A command that client code has passed to the context, from inside a callback or not,
      and what the context was about to do at that moment. */
  datatype Offer = Offer(issued: Issued, regular: bool, disconnecting: bool, freeing: bool, inside: bool)

  /** A callback that was taken off the queue, with its reply or NULL. */
  datatype Delivery = Delivery(cb: Callback, reply: Option<Reply>)

  /** What client code may do with a context. A command that is not regular is an
      unsubscribe. */
  datatype Action = Command(issued: Issued, regular: bool) | Disconnect | Free

  type Client = nat -> seq<Action>

  /** `redisAsyncContext`, and a record of what happened to it. */
  datatype Engine = Engine(
    connected: bool, disconnecting: bool, freeing: bool, inCallback: bool,
    wire: Wire,
    pending: seq<Callback>,
    freed: bool, aborted: bool,
    offered: seq<Offer>, accepted: seq<Issued>, received: seq<Reply>, delivered: seq<Delivery>, calls: seq<Delivery>, notified: seq<bool>)

  const Fresh: Engine :=
    Engine(false, false, false, false, Wire([], [], false, false), [], false, false, [], [], [], [], [], [])

  /** No command is accepted any more. */
  predicate Closing(e: Engine) {
    e.disconnecting || e.freeing
  }

  // ----- The operations

  /** `__redisAsyncCommand`. */
  function Issue(e: Engine, c: Issued, regular: bool): Engine {
    if Closing(e) || !regular then e
    else e.(pending := e.pending + [c.cb], wire := Step(e.wire, Append(c.cmd)), accepted := e.accepted + [c])
  }

  /** Client code passes a command; `Issue` says what becomes of it. */
  function Offered(e: Engine, c: Issued, regular: bool): Engine {
    e.(offered := e.offered + [Offer(c, regular, e.disconnecting, e.freeing, e.inCallback)])
  }

  /** An action of a client while one of its callbacks runs. */
  function Act(e: Engine, a: Action): (r: Engine)
    ensures Closing(e) ==> Closing(r) && r.pending == e.pending && r.accepted == e.accepted && r.wire == e.wire
  {
    match a
    case Command(c, regular) => Issue(Offered(e, c, regular), c, regular)
    case Disconnect => e.(disconnecting := true)
    case Free => e.(freeing := true)
  }

  function ActAll(e: Engine, actions: seq<Action>): (r: Engine)
    ensures Closing(e) ==> Closing(r) && r.pending == e.pending && r.accepted == e.accepted && r.wire == e.wire
    decreases |actions|
  {
    if actions == [] then e else ActAll(Act(e, actions[0]), actions[1..])
  }

  /** `__redisRunCallback`. */
  function RunCallback(e: Engine, d: Delivery, client: Client): (r: Engine)
    ensures Closing(e) ==> Closing(r) && r.pending == e.pending && r.accepted == e.accepted && r.wire == e.wire
  {
    if !d.cb.hasFn then e
    else
      var entered := e.(inCallback := true, calls := e.calls + [d]);
      ActAll(entered, client(|e.calls|)).(inCallback := false)
  }

  /** Takes the first callback off the queue and runs it. */
  function Deliver(e: Engine, reply: Option<Reply>, client: Client): (r: Engine)
    requires e.pending != []
    ensures Closing(e) ==> Closing(r) && r.pending == e.pending[1..] && r.accepted == e.accepted && r.wire == e.wire
  {
    var d := Delivery(e.pending[0], reply);
    var received := if reply.Some? then e.received + [reply.value] else e.received;
    RunCallback(e.(pending := e.pending[1..], delivered := e.delivered + [d], received := received), d, client)
  }

  /** The drain loop of `__redisAsyncFree`. It ends because nothing is accepted
      while it runs. */
  function Drain(e: Engine, client: Client): (r: Engine)
    requires Closing(e)
    ensures r.pending == [] && r.accepted == e.accepted && r.wire == e.wire
    decreases |e.pending|
  {
    if e.pending == [] then e else Drain(Deliver(e, None, client), client)
  }

  /** `__redisAsyncFree`: drains, and reports the disconnect of a connected
      context, as an error unless the client asked for it or nothing failed. */
  function Destroy(e: Engine, client: Client): Engine
    requires Closing(e)
  {
    var d := Drain(e, client);
    d.(freed := true,
       notified := if d.connected then d.notified + [d.freeing || !d.wire.failed] else d.notified)
  }

  /** `__redisAsyncDisconnect`: a clean disconnect has nothing pending. */
  function Teardown(e: Engine, client: Client): Engine
    requires !e.wire.failed ==> e.pending == [] && e.disconnecting
  {
    Destroy(if e.wire.failed then e.(disconnecting := true) else e, client)
  }

  function Fail(e: Engine): Engine {
    e.(wire := e.wire.(failed := true))
  }

  /** One reply in `redisProcessCallbacks`, and whether the function ends with it.
      A reply that no command waits for is an error of the connection if it is an
      error reply, and otherwise fails an assertion. */
  function Serve(e: Engine, reply: Reply, client: Client): (Engine, bool) {
    if e.pending == [] then
      (if reply.Error? then Teardown(Fail(e), client) else e.(aborted := true), true)
    else
      var r := Deliver(e, Some(reply), client);
      if e.pending[0].hasFn && r.freeing then (Destroy(r, client), true) else (r, false)
  }

  /** What `redisProcessCallbacks` does when there is no complete reply left. */
  function EndOfReplies(e: Engine, broken: bool, client: Client): Engine {
    if broken then Teardown(Fail(e), client)
    else if e.disconnecting && e.wire.buffered == [] && e.pending == [] then Teardown(e, client)
    else e
  }

  /** `redisProcessCallbacks`: `incoming` are the complete replies in the reader,
      and `broken` says whether the bytes after them are malformed. */
  function Process(e: Engine, incoming: seq<Reply>, broken: bool, client: Client): Engine
    decreases |incoming|
  {
    if incoming == [] then EndOfReplies(e, broken, client)
    else
      var (r, stop) := Serve(e, incoming[0], client);
      if stop then r else Process(r, incoming[1..], broken, client)
  }

  datatype ConnectResult = StillConnecting | Refused | Established

  /** `__redisAsyncHandleConnect`, when the context is not connected yet. The check of the
      socket records an error even if the connection is only in progress. */
  function Connect(e: Engine, result: ConnectResult, client: Client): Engine {
    if e.connected then e
    else
      match result
      case StillConnecting => Fail(e)
      case Refused => Teardown(Fail(e), client)
      case Established => e.(connected := true)
  }

  /** What happens to a context outside of callbacks. */
  datatype Event =
    | Call(action: Action)
    | Readable(connect: ConnectResult, readFails: bool, incoming: seq<Reply>, broken: bool)
    | Writable(connect: ConnectResult, write: WriteResult)

  /** A context that can still be used. */
  predicate Live(e: Engine) {
    !e.freed && !e.aborted && !e.inCallback && !e.freeing
  }

  predicate Feasible(e: Engine, event: Event) {
    event.Writable? ==> Possible(e.wire, Write(event.write))
  }

  function Do(e: Engine, event: Event, client: Client): Engine
    requires Live(e) && Feasible(e, event)
  {
    match event
    case Call(Command(c, regular)) => Issue(Offered(e, c, regular), c, regular)
    case Call(Disconnect) =>
      var d := e.(disconnecting := true);
      if d.pending == [] then Teardown(d, client) else d
    case Call(Free) => Destroy(e.(freeing := true), client)
    case Readable(connect, readFails, incoming, broken) =>
      var c := Connect(e, connect, client);
      if c.freed || !c.connected then c
      else if readFails || c.wire.failed then Teardown(Fail(c), client)
      else Process(c, incoming, broken, client)
    case Writable(connect, write) =>
      var c := Connect(e, connect, client);
      if c.freed || !c.connected then c
      else
        var w := c.(wire := Step(c.wire, Write(write)));
        if w.wire.failed then Teardown(w, client) else w
  }

  /** A run: it ends when the context is freed or an assertion fails. */
  ghost function Run(events: seq<Event>, client: Client): Engine {
    if events == [] then Fresh
    else
      var e, last := Run(events[..|events| - 1], client), events[|events| - 1];
      if Live(e) && Feasible(e, last) then Do(e, last, client) else e
  }

  // ----- What every step keeps

  function Callbacks(issued: seq<Issued>): seq<Callback> {
    if issued == [] then [] else Callbacks(issued[..|issued| - 1]) + [issued[|issued| - 1].cb]
  }

  /** The regular commands among those offered while the context was not closing. */
  function Taken(offers: seq<Offer>): seq<Issued> {
    if offers == [] then []
    else
      var last := offers[|offers| - 1];
      Taken(offers[..|offers| - 1]) + if last.regular && !last.disconnecting && !last.freeing then [last.issued] else []
  }

  function Delivered(ds: seq<Delivery>): seq<Callback> {
    if ds == [] then [] else Delivered(ds[..|ds| - 1]) + [ds[|ds| - 1].cb]
  }

  function CommandBytes(issued: seq<Issued>): seq<byte> {
    if issued == [] then [] else CommandBytes(issued[..|issued| - 1]) + issued[|issued| - 1].cmd
  }

  /** The deliveries that reach a function of the client. */
  function Calls(ds: seq<Delivery>): seq<Delivery> {
    if ds == [] then [] else
      var d := ds[|ds| - 1];
      Calls(ds[..|ds| - 1]) + if d.cb.hasFn then [d] else []
  }

  /** The k-th reply went to the k-th delivered callback, and the callbacks after
      that got NULL. */
  ghost predicate InOrder(received: seq<Reply>, delivered: seq<Delivery>) {
    && |received| <= |delivered|
    && (forall k | 0 <= k < |received| :: delivered[k].reply == Some(received[k]))
    && (forall k | |received| <= k < |delivered| :: delivered[k].reply == None)
  }

  ghost predicate Consistent(e: Engine) {
    && e.accepted == Taken(e.offered)
    && Callbacks(e.accepted) == Delivered(e.delivered) + e.pending
    && Carries(e.wire, CommandBytes(e.accepted))
    && InOrder(e.received, e.delivered)
    && e.calls == Calls(e.delivered)
  }

  /** Only commands were issued and flags raised in between. */
  ghost predicate SameHistory(e: Engine, r: Engine) {
    && r.received == e.received && r.delivered == e.delivered && r.calls == e.calls
    && r.notified == e.notified
    && r.freed == e.freed && r.aborted == e.aborted && r.wire.failed == e.wire.failed
    && r.connected == e.connected && r.inCallback == e.inCallback
  }

  lemma AppendIssued(issued: seq<Issued>, c: Issued)
    ensures Callbacks(issued + [c]) == Callbacks(issued) + [c.cb]
    ensures CommandBytes(issued + [c]) == CommandBytes(issued) + c.cmd
  {
    assert (issued + [c])[..|issued|] == issued;
  }

  lemma AppendDelivery(ds: seq<Delivery>, d: Delivery)
    ensures Delivered(ds + [d]) == Delivered(ds) + [d.cb]
    ensures Calls(ds + [d]) == Calls(ds) + if d.cb.hasFn then [d] else []
  {
    assert (ds + [d])[..|ds|] == ds;
  }

  lemma AppendOffer(offers: seq<Offer>, o: Offer)
    ensures Taken(offers + [o]) ==
            Taken(offers) + if o.regular && !o.disconnecting && !o.freeing then [o.issued] else []
  {
    assert (offers + [o])[..|offers|] == offers;
  }

  lemma IssueKeeps(e: Engine, c: Issued, regular: bool)
    requires Consistent(e)
    ensures Consistent(Issue(Offered(e, c, regular), c, regular))
  {
    hide Callbacks;
    hide Delivered;
    hide CommandBytes;
    hide Calls;
    hide InOrder;
    hide Carries;
    hide Taken;
    AppendOffer(e.offered, Offer(c, regular, e.disconnecting, e.freeing, e.inCallback));
    AppendIssued(e.accepted, c);
    StepCarries(e.wire, CommandBytes(e.accepted), Append(c.cmd));
    assert e.accepted + [] == e.accepted;
    assert Delivered(e.delivered) + (e.pending + [c.cb]) == Delivered(e.delivered) + e.pending + [c.cb];
  }

  lemma ActKeeps(e: Engine, a: Action)
    requires Consistent(e)
    ensures Consistent(Act(e, a)) && SameHistory(e, Act(e, a))
  {
    hide Callbacks;
    hide Delivered;
    hide CommandBytes;
    hide Calls;
    hide InOrder;
    hide Taken;
    hide Carries;
    if a.Command? {
      IssueKeeps(e, a.issued, a.regular);
    }
  }

  lemma {:induction false} ActAllKeeps(e: Engine, actions: seq<Action>)
    requires Consistent(e)
    ensures Consistent(ActAll(e, actions)) && SameHistory(e, ActAll(e, actions))
    decreases |actions|
  {
    hide Consistent;
    hide Act;
    if actions != [] {
      ActKeeps(e, actions[0]);
      ActAllKeeps(Act(e, actions[0]), actions[1..]);
    }
  }

  /** Taking a callback off the queue keeps the order: a reply may only follow
      replies. */
  lemma TakeKeeps(e: Engine, reply: Option<Reply>)
    requires Consistent(e) && e.pending != []
    requires reply.Some? ==> |e.received| == |e.delivered|
    ensures Consistent(Shifted(e, reply))
  {
    hide Callbacks;
    hide Delivered;
    hide CommandBytes;
    hide Calls;
    var d := Delivery(e.pending[0], reply);
    AppendDelivery(e.delivered, d);
    assert [e.pending[0]] + e.pending[1..] == e.pending;
    assert Delivered(e.delivered) + [d.cb] + e.pending[1..] == Delivered(e.delivered) + ([d.cb] + e.pending[1..]);
    assert e.calls + [] == e.calls;
  }

  /** The context when the first callback is off the queue and its call is
      recorded. */
  function Shifted(e: Engine, reply: Option<Reply>): Engine
    requires e.pending != []
  {
    var d := Delivery(e.pending[0], reply);
    e.(pending := e.pending[1..],
       delivered := e.delivered + [d],
       received := if reply.Some? then e.received + [reply.value] else e.received,
       calls := if d.cb.hasFn then e.calls + [d] else e.calls)
  }

  lemma DeliverKeeps(e: Engine, reply: Option<Reply>, client: Client)
    requires Consistent(e) && e.pending != [] && !e.inCallback
    requires reply.Some? ==> |e.received| == |e.delivered|
    ensures Consistent(Deliver(e, reply, client))
    ensures SameHistory(Shifted(e, reply), Deliver(e, reply, client))
  {
    hide Callbacks;
    hide Delivered;
    hide CommandBytes;
    hide Calls;
    hide InOrder;
    hide Taken;
    var taken := Shifted(e, reply);
    TakeKeeps(e, reply);
    if e.pending[0].hasFn {
      var entered := taken.(inCallback := true);
      assert Consistent(entered);
      ActAllKeeps(entered, client(|e.calls|));
    }
  }

  lemma {:induction false} DrainKeeps(e: Engine, client: Client)
    requires Consistent(e) && Closing(e) && !e.inCallback
    ensures Consistent(Drain(e, client))
    ensures var r := Drain(e, client);
            && r.received == e.received && r.freed == e.freed && r.aborted == e.aborted
            && r.connected == e.connected && !r.inCallback && r.notified == e.notified
    decreases |e.pending|
  {
    hide Consistent;
    hide Deliver;
    if e.pending != [] {
      DeliverKeeps(e, None, client);
      DrainKeeps(Deliver(e, None, client), client);
    }
  }

  /** Freeing a context, by whatever road, calls back exactly once for every
      command that was ever accepted. */
  lemma DestroyCompletes(e: Engine, client: Client)
    requires Consistent(e) && Closing(e) && !e.inCallback
    ensures var r := Destroy(e, client);
            && Consistent(r) && r.freed && r.aborted == e.aborted && !r.inCallback
            && r.pending == [] && r.connected == e.connected
            && r.accepted == e.accepted && r.received == e.received
            && Callbacks(r.accepted) == Delivered(r.delivered)
            && r.notified == e.notified + if e.connected then [r.freeing || !r.wire.failed] else []
  {
    hide Callbacks;
    hide Delivered;
    hide CommandBytes;
    hide Calls;
    hide InOrder;
    hide Taken;
    hide Drain;
    DrainKeeps(e, client);
    var d := Drain(e, client);
    assert Delivered(d.delivered) + [] == Delivered(d.delivered);
  }

  // ----- Whole runs

  /** What holds between the events of a run. */
  ghost predicate Sound(e: Engine) {
    && Consistent(e) && !e.inCallback
    && (e.freed ==> e.pending == [])
    && (Live(e) ==> |e.received| == |e.delivered|)
    && (!e.freed ==> e.notified == [] && !e.freeing)
    && (e.freed ==> e.notified == if e.connected then [e.freeing || !e.wire.failed] else [])
  }

  lemma TeardownSound(e: Engine, client: Client)
    requires Consistent(e) && !e.inCallback && e.notified == []
    requires !e.wire.failed ==> e.pending == [] && e.disconnecting
    ensures Sound(Teardown(e, client)) && Teardown(e, client).freed
  {
    hide Callbacks;
    hide Delivered;
    hide CommandBytes;
    hide Calls;
    hide InOrder;
    hide Taken;
    hide Drain;
    var t := if e.wire.failed then e.(disconnecting := true) else e;
    DestroyCompletes(t, client);
    DrainKeeps(t, client);
  }

  /** Between two events. */
  ghost predicate Usable(e: Engine) {
    && Consistent(e) && !e.inCallback && |e.received| == |e.delivered| && e.notified == []
    && !e.freed && !e.freeing
  }

  /** Between two replies of a batch. */
  ghost predicate Serving(e: Engine) {
    Usable(e) && !e.wire.failed
  }

  lemma ServeSound(e: Engine, reply: Reply, client: Client)
    requires Serving(e)
    ensures var (r, stop) := Serve(e, reply, client);
            if stop then Sound(r) else Serving(r)
  {
    hide Callbacks;
    hide Delivered;
    hide CommandBytes;
    hide Calls;
    hide InOrder;
    hide Taken;
    hide Destroy;
    hide Deliver;
    if e.pending == [] {
      if reply.Error? {
        TeardownSound(Fail(e), client);
      }
    } else {
      var r := Deliver(e, Some(reply), client);
      DeliverKeeps(e, Some(reply), client);
      if !e.pending[0].hasFn {
        SilentDelivery(e, Some(reply), client);
      } else if r.freeing {
        DestroyCompletes(r, client);
      }
    }
  }

  lemma {:induction false} ProcessSound(e: Engine, incoming: seq<Reply>, broken: bool, client: Client)
    requires Serving(e)
    ensures Sound(Process(e, incoming, broken, client))
    decreases |incoming|
  {
    hide Callbacks;
    hide Delivered;
    hide CommandBytes;
    hide Calls;
    hide InOrder;
    hide Taken;
    hide Teardown;
    hide Serve;
    if incoming == [] {
      if broken {
        TeardownSound(Fail(e), client);
      } else if e.disconnecting && e.wire.buffered == [] && e.pending == [] {
        TeardownSound(e, client);
      }
    } else {
      ServeSound(e, incoming[0], client);
      var (r, stop) := Serve(e, incoming[0], client);
      if !stop {
        ProcessSound(r, incoming[1..], broken, client);
      }
    }
  }

  /** Without a function nothing of the client runs. */
  lemma SilentDelivery(e: Engine, reply: Option<Reply>, client: Client)
    requires e.pending != [] && !e.pending[0].hasFn
    ensures Deliver(e, reply, client) == Shifted(e, reply)
  {
  }

  lemma ConnectSound(e: Engine, result: ConnectResult, client: Client)
    requires Usable(e)
    ensures var c := Connect(e, result, client);
            Sound(c) && (c.freed || (Usable(c) && c.wire == e.wire.(failed := c.wire.failed)))
  {
    hide Callbacks;
    hide Delivered;
    hide CommandBytes;
    hide Calls;
    hide InOrder;
    hide Taken;
    hide Teardown;
    if !e.connected && result == Refused {
      TeardownSound(Fail(e), client);
    }
  }

  lemma WriteKeeps(e: Engine, w: WriteResult)
    requires Consistent(e) && Possible(e.wire, Write(w))
    ensures Consistent(e.(wire := Step(e.wire, Write(w))))
  {
    hide Callbacks;
    hide Delivered;
    hide CommandBytes;
    hide Calls;
    hide InOrder;
    hide Taken;
    hide Carries;
    StepCarries(e.wire, CommandBytes(e.accepted), Write(w));
  }

  lemma DoSound(e: Engine, event: Event, client: Client)
    requires Sound(e) && Live(e) && Feasible(e, event)
    ensures Sound(Do(e, event, client))
  {
    hide Callbacks;
    hide Delivered;
    hide CommandBytes;
    hide Calls;
    hide InOrder;
    hide Taken;
    hide Teardown;
    hide Destroy;
    hide Process;
    assert Usable(e);
    match event
    case Call(Command(c, regular)) => IssueKeeps(e, c, regular);
    case Call(Disconnect) =>
      var d := e.(disconnecting := true);
      assert Consistent(d);
      if d.pending == [] {
        TeardownSound(d, client);
      }
    case Call(Free) =>
      assert Consistent(e.(freeing := true));
      DestroyCompletes(e.(freeing := true), client);
    case Readable(connect, readFails, incoming, broken) =>
      ConnectSound(e, connect, client);
      var c := Connect(e, connect, client);
      if !c.freed && c.connected {
        assert Consistent(Fail(c));
        if readFails || c.wire.failed {
          TeardownSound(Fail(c), client);
        } else {
          ProcessSound(c, incoming, broken, client);
        }
      }
    case Writable(connect, write) =>
      ConnectSound(e, connect, client);
      var c := Connect(e, connect, client);
      if !c.freed && c.connected {
        WriteKeeps(c, write);
        var w := c.(wire := Step(c.wire, Write(write)));
        if w.wire.failed {
          TeardownSound(w, client);
        }
      }
  }

  lemma {:induction false} RunSound(events: seq<Event>, client: Client)
    ensures Sound(Run(events, client))
  {
    hide Do;
    if events == [] {
      assert Callbacks([]) == [] && Delivered([]) == [] && CommandBytes([]) == [] && Calls([]) == [];
    } else {
      RunSound(events[..|events| - 1], client);
      var e, last := Run(events[..|events| - 1], client), events[|events| - 1];
      if Live(e) && Feasible(e, last) {
        DoSound(e, last, client);
      }
    }
  }

  lemma {:induction false} CallbackAt(issued: seq<Issued>, k: nat)
    requires k < |issued|
    ensures |Callbacks(issued)| == |issued| && Callbacks(issued)[k] == issued[k].cb
  {
    CallbacksLength(issued);
    if k < |issued| - 1 {
      CallbackAt(issued[..|issued| - 1], k);
    } else {
      CallbacksLength(issued[..|issued| - 1]);
    }
  }

  lemma {:induction false} CallbacksLength(issued: seq<Issued>)
    ensures |Callbacks(issued)| == |issued|
  {
    if issued != [] {
      CallbacksLength(issued[..|issued| - 1]);
    }
  }

  lemma {:induction false} DeliveredAt(ds: seq<Delivery>, k: nat)
    requires k < |ds|
    ensures |Delivered(ds)| == |ds| && Delivered(ds)[k] == ds[k].cb
  {
    DeliveredLength(ds);
    if k < |ds| - 1 {
      DeliveredAt(ds[..|ds| - 1], k);
    } else {
      DeliveredLength(ds[..|ds| - 1]);
    }
  }

  lemma {:induction false} DeliveredLength(ds: seq<Delivery>)
    ensures |Delivered(ds)| == |ds|
  {
    if ds != [] {
      DeliveredLength(ds[..|ds| - 1]);
    }
  }

  /** Over every run and for every client: callbacks are taken off the queue in
      the order their commands were accepted, the k-th with the k-th reply, and
      after the last reply with NULL; none is left when the context is freed, and
      before that none is called without a reply. */
  lemma ExactlyOnceInOrder(events: seq<Event>, client: Client)
    ensures var e := Run(events, client);
            && |e.received| <= |e.delivered| <= |e.accepted|
            && (forall k | 0 <= k < |e.delivered| ::
                  e.delivered[k] ==
                  Delivery(e.accepted[k].cb, if k < |e.received| then Some(e.received[k]) else None))
            && |e.pending| == |e.accepted| - |e.delivered|
            && (forall k | |e.delivered| <= k < |e.accepted| ::
                  e.pending[k - |e.delivered|] == e.accepted[k].cb)
            && (e.freed ==> |e.delivered| == |e.accepted|)
            && (Live(e) ==> |e.received| == |e.delivered|)
            && e.calls == Calls(e.delivered)
  {
    hide Run;
    hide CommandBytes;
    hide Calls;
    hide Callbacks;
    hide Delivered;
    RunSound(events, client);
    var e := Run(events, client);
    CallbacksLength(e.accepted);
    DeliveredLength(e.delivered);
    forall k | 0 <= k < |e.accepted|
      ensures k < |e.delivered| ==> e.delivered[k].cb == e.accepted[k].cb
      ensures k >= |e.delivered| ==> e.pending[k - |e.delivered|] == e.accepted[k].cb
    {
      CallbackAt(e.accepted, k);
      if k < |e.delivered| {
        DeliveredAt(e.delivered, k);
      }
    }
  }

  /** A command is accepted exactly if it is a regular one that is passed while the context is
      neither disconnecting nor freeing. */
  lemma AcceptedAsOffered(events: seq<Event>, client: Client)
    ensures Run(events, client).accepted == Taken(Run(events, client).offered)
  {
    RunSound(events, client);
  }

  /** The disconnect is reported once, when a connected context is freed: as an error if and
      only if the connection failed and the client has not asked for the end. */
  lemma ReportedOnce(events: seq<Event>, client: Client)
    ensures var e := Run(events, client);
            e.notified == if e.freed && e.connected then [e.freeing || !e.wire.failed] else []
  {
    RunSound(events, client);
  }

  /** The bytes of the accepted commands, in order, are what was sent and what is still
      buffered, exactly if no write met more than INT_MAX buffered bytes. */
  lemma CommandsOnTheWire(events: seq<Event>, client: Client)
    ensures var e := Run(events, client);
            e.wire.sent + e.wire.buffered == CommandBytes(e.accepted) <==> !e.wire.overflowed
  {
    RunSound(events, client);
  }

  // ----- The assertion about replies that nobody waits for

  lemma {:induction false} ActAllGrows(e: Engine, actions: seq<Action>)
    ensures |ActAll(e, actions).pending| >= |e.pending| && ActAll(e, actions).aborted == e.aborted
    decreases |actions|
  {
    if actions != [] {
      ActAllGrows(Act(e, actions[0]), actions[1..]);
    }
  }

  lemma {:induction false} DrainAborts(e: Engine, client: Client)
    requires Closing(e)
    ensures Drain(e, client).aborted == e.aborted
    decreases |e.pending|
  {
    if e.pending != [] {
      DeliverGrows(e, None, client);
      DrainAborts(Deliver(e, None, client), client);
    }
  }

  /** Delivering is taking the callback off the queue and doing what the client does. */
  lemma DeliverActs(e: Engine, reply: Option<Reply>, client: Client)
    requires e.pending != []
    ensures var t := Shifted(e, reply);
            Deliver(e, reply, client) ==
            if !e.pending[0].hasFn then t
            else ActAll(t.(inCallback := true), client(|e.calls|)).(inCallback := false)
  {
    hide ActAll;
  }

  lemma DeliverGrows(e: Engine, reply: Option<Reply>, client: Client)
    requires e.pending != []
    ensures var r := Deliver(e, reply, client);
            |r.pending| >= |e.pending| - 1 && r.aborted == e.aborted
  {
    hide ActAll;
    hide Deliver;
    DeliverActs(e, reply, client);
    if e.pending[0].hasFn {
      ActAllGrows(Shifted(e, reply).(inCallback := true), client(|e.calls|));
    }
  }

  /** If every reply in a batch answers a command issued before, the assertion of
      `redisProcessCallbacks` holds. */
  lemma {:induction false} AnsweredBatch(e: Engine, incoming: seq<Reply>, broken: bool, client: Client)
    requires |incoming| <= |e.pending|
    ensures Process(e, incoming, broken, client).aborted == e.aborted
    decreases |incoming|
  {
    hide Drain;
    if incoming == [] {
      if broken {
        DrainAborts(Fail(e).(disconnecting := true), client);
      } else if e.disconnecting && e.wire.buffered == [] && e.pending == [] {
        DrainAborts(if e.wire.failed then e.(disconnecting := true) else e, client);
      }
    } else {
      var r := Deliver(e, Some(incoming[0]), client);
      DeliverGrows(e, Some(incoming[0]), client);
      if e.pending[0].hasFn && r.freeing {
        DrainAborts(r, client);
      } else {
        AnsweredBatch(r, incoming[1..], broken, client);
      }
    }
  }

  /** The server never sends more replies than there are commands waiting. */
  ghost predicate PoliteServer(events: seq<Event>, client: Client) {
    events != [] ==>
      var init, last := events[..|events| - 1], events[|events| - 1];
      PoliteServer(init, client) && (last.Readable? ==> |last.incoming| <= |Run(init, client).pending|)
  }

  lemma {:induction false} PoliteRunNeverAborts(events: seq<Event>, client: Client)
    requires PoliteServer(events, client)
    ensures !Run(events, client).aborted
  {
    if events != [] {
      var init, last := events[..|events| - 1], events[|events| - 1];
      PoliteRunNeverAborts(init, client);
      var e := Run(init, client);
      if Live(e) && Feasible(e, last) {
        PoliteEvent(e, last, client);
      }
    }
  }

  lemma PoliteEvent(e: Engine, event: Event, client: Client)
    requires Live(e) && Feasible(e, event)
    requires event.Readable? ==> |event.incoming| <= |e.pending|
    ensures !Do(e, event, client).aborted
  {
    hide Drain;
    hide Process;
    match event
    case Call(Command(c, regular)) =>
    case Call(Disconnect) => DrainAborts(e.(disconnecting := true), client);
    case Call(Free) => DrainAborts(e.(freeing := true), client);
    case Readable(connect, readFails, incoming, broken) =>
      var c := Connect(e, connect, client);
      DrainAborts(Fail(e).(disconnecting := true), client);
      if !c.freed && c.connected {
        DrainAborts(Fail(c).(disconnecting := true), client);
        AnsweredBatch(c, incoming, broken, client);
      }
    case Writable(connect, write) =>
      var c := Connect(e, connect, client);
      DrainAborts(Fail(e).(disconnecting := true), client);
      if !c.freed && c.connected {
        DrainAborts(c.(wire := Step(c.wire, Write(write)), disconnecting := true), client);
      }
  }
}

/** What single events and callbacks bring about, and that no command a client passes is
    overlooked. The statements do not use the operations of the engine: they say what is in
    the context afterwards. */
module AsyncSteps {
  import opened Bytes
  import opened Resp
  import OutputBuffer
  import opened AsyncSpec

  // ----- Which commands are offered

  /** The commands among the actions of a client. */
  function Commands(actions: seq<Action>): (cs: seq<Action>) {
    if actions == [] then []
    else (if actions[0].Command? then [actions[0]] else []) + Commands(actions[1..])
  }

  /** The commands that the first `n` callbacks of a client pass. */
  function CallbackCommands(client: Client, n: nat): (cs: seq<Action>) {
    if n == 0 then [] else CallbackCommands(client, n - 1) + Commands(client(n - 1))
  }

  /** The commands offered from inside callbacks, or from outside. */
  function OfferedFrom(offers: seq<Offer>, inside: bool): (cs: seq<Action>) {
    if offers == [] then []
    else
      var last := offers[|offers| - 1];
      OfferedFrom(offers[..|offers| - 1], inside) +
      if last.inside == inside then [Command(last.issued, last.regular)] else []
  }

  /** The commands that the events of a run pass to a live context. */
  ghost function EventCommands(events: seq<Event>, client: Client): (cs: seq<Action>) {
    if events == [] then []
    else
      var init, last := events[..|events| - 1], events[|events| - 1];
      EventCommands(init, client) +
      if Live(Run(init, client)) && last.Call? && last.action.Command? then [last.action] else []
  }

  /** Every command of the callbacks that ran is offered, in order, and `outside` are the
      others. */
  ghost predicate Heard(e: Engine, client: Client, outside: seq<Action>) {
    && OfferedFrom(e.offered, true) == CallbackCommands(client, |e.calls|)
    && OfferedFrom(e.offered, false) == outside
  }

  lemma AppendOffered(offers: seq<Offer>, o: Offer, inside: bool)
    ensures OfferedFrom(offers + [o], inside) ==
            OfferedFrom(offers, inside) + if o.inside == inside then [Command(o.issued, o.regular)] else []
  {
    assert (offers + [o])[..|offers|] == offers;
  }

  lemma ActOffers(e: Engine, a: Action)
    ensures var r := Act(e, a);
            && r.calls == e.calls && r.inCallback == e.inCallback
            && OfferedFrom(r.offered, e.inCallback) == OfferedFrom(e.offered, e.inCallback) + Commands([a])
            && OfferedFrom(r.offered, !e.inCallback) == OfferedFrom(e.offered, !e.inCallback)
  {
    hide OfferedFrom;
    hide OutputBuffer.Step;
    assert [a][1..] == [] && Commands([]) == [];
    if a.Command? {
      var o := Offer(a.issued, a.regular, e.disconnecting, e.freeing, e.inCallback);
      AppendOffered(e.offered, o, true);
      AppendOffered(e.offered, o, false);
    }
  }

  lemma {:induction false} ActAllOffers(e: Engine, actions: seq<Action>)
    ensures var r := ActAll(e, actions);
            && r.calls == e.calls && r.inCallback == e.inCallback
            && OfferedFrom(r.offered, e.inCallback) == OfferedFrom(e.offered, e.inCallback) + Commands(actions)
            && OfferedFrom(r.offered, !e.inCallback) == OfferedFrom(e.offered, !e.inCallback)
    decreases |actions|
  {
    hide Act;
    hide OfferedFrom;
    if actions != [] {
      ActOffers(e, actions[0]);
      ActAllOffers(Act(e, actions[0]), actions[1..]);
      assert Commands([actions[0]]) + Commands(actions[1..]) == Commands(actions);
    }
  }

  lemma DeliverHears(e: Engine, reply: Option<Reply>, client: Client, outside: seq<Action>)
    requires Heard(e, client, outside) && e.pending != []
    ensures Heard(Deliver(e, reply, client), client, outside)
  {
    hide ActAll;
    hide OfferedFrom;
    DeliverActs(e, reply, client);
    if e.pending[0].hasFn {
      ActAllOffers(Shifted(e, reply).(inCallback := true), client(|e.calls|));
    }
  }

  lemma {:induction false} DrainHears(e: Engine, client: Client, outside: seq<Action>)
    requires Heard(e, client, outside) && Closing(e)
    ensures Heard(Drain(e, client), client, outside)
    decreases |e.pending|
  {
    hide Heard;
    hide Deliver;
    if e.pending != [] {
      DeliverHears(e, None, client, outside);
      DrainHears(Deliver(e, None, client), client, outside);
    }
  }

  lemma DestroyHears(e: Engine, client: Client, outside: seq<Action>)
    requires Heard(e, client, outside) && Closing(e)
    ensures Heard(Destroy(e, client), client, outside)
  {
    hide Drain;
    hide OfferedFrom;
    DrainHears(e, client, outside);
  }

  lemma TeardownHears(e: Engine, client: Client, outside: seq<Action>)
    requires Heard(e, client, outside) && (!e.wire.failed ==> e.pending == [] && e.disconnecting)
    ensures Heard(Teardown(e, client), client, outside)
  {
    hide Destroy;
    hide OfferedFrom;
    DestroyHears(if e.wire.failed then e.(disconnecting := true) else e, client, outside);
  }

  lemma {:induction false} ProcessHears(e: Engine, incoming: seq<Reply>, broken: bool, client: Client, outside: seq<Action>)
    requires Heard(e, client, outside)
    ensures Heard(Process(e, incoming, broken, client), client, outside)
    decreases |incoming|
  {
    hide OfferedFrom;
    hide Destroy;
    hide Teardown;
    hide Deliver;
    if incoming == [] {
      if broken {
        TeardownHears(AsyncSpec.Fail(e), client, outside);
      } else if e.disconnecting && e.wire.buffered == [] && e.pending == [] {
        TeardownHears(e, client, outside);
      }
    } else {
      ServeHears(e, incoming[0], client, outside);
      var (r, stop) := Serve(e, incoming[0], client);
      if !stop {
        ProcessHears(r, incoming[1..], broken, client, outside);
      }
    }
  }

  lemma ServeHears(e: Engine, reply: Reply, client: Client, outside: seq<Action>)
    requires Heard(e, client, outside)
    ensures Heard(Serve(e, reply, client).0, client, outside)
  {
    hide OfferedFrom;
    hide Destroy;
    hide Teardown;
    hide Deliver;
    if e.pending == [] {
      if reply.Error? {
        TeardownHears(AsyncSpec.Fail(e), client, outside);
      }
    } else {
      var r := Deliver(e, Some(reply), client);
      DeliverHears(e, Some(reply), client, outside);
      if e.pending[0].hasFn && r.freeing {
        DestroyHears(r, client, outside);
      }
    }
  }

  lemma ConnectHears(e: Engine, result: ConnectResult, client: Client, outside: seq<Action>)
    requires Heard(e, client, outside)
    ensures Heard(Connect(e, result, client), client, outside)
  {
    hide OfferedFrom;
    hide Teardown;
    if !e.connected && result == Refused {
      TeardownHears(AsyncSpec.Fail(e), client, outside);
    }
  }

  lemma ConnectedWire(e: Engine, result: ConnectResult, client: Client)
    ensures var c := Connect(e, result, client);
            c.freed || c.wire == e.wire.(failed := c.wire.failed)
  {
    hide Drain;
  }

  lemma DoHears(e: Engine, event: Event, client: Client, outside: seq<Action>)
    requires Live(e) && Feasible(e, event) && Heard(e, client, outside)
    ensures Heard(Do(e, event, client), client,
                  outside + if event.Call? && event.action.Command? then [event.action] else [])
  {
    hide OfferedFrom;
    hide Teardown;
    hide Destroy;
    hide Process;
    hide OutputBuffer.Step;
    assert outside + [] == outside;
    match event
    case Call(Command(c, regular)) =>
      ActOffers(e, event.action);
      assert Commands([event.action]) == [event.action];
    case Call(Disconnect) =>
      var d := e.(disconnecting := true);
      if d.pending == [] {
        TeardownHears(d, client, outside);
      }
    case Call(Free) => DestroyHears(e.(freeing := true), client, outside);
    case Readable(connect, readFails, incoming, broken) =>
      ConnectHears(e, connect, client, outside);
      var c := Connect(e, connect, client);
      if !c.freed && c.connected {
        TeardownHears(AsyncSpec.Fail(c), client, outside);
        ProcessHears(c, incoming, broken, client, outside);
      }
    case Writable(connect, write) =>
      ConnectHears(e, connect, client, outside);
      ConnectedWire(e, connect, client);
      var c := Connect(e, connect, client);
      if !c.freed && c.connected {
        var w := c.(wire := OutputBuffer.Step(c.wire, OutputBuffer.Write(write)));
        if w.wire.failed {
          TeardownHears(w, client, outside);
        }
      }
  }

  /** Over every run and for every client, the commands offered are exactly those that events
      pass to the live context and, in order, those of every callback that ran. */
  lemma {:induction false} AllCommandsOffered(events: seq<Event>, client: Client)
    ensures Heard(Run(events, client), client, EventCommands(events, client))
  {
    hide Do;
    if events == [] {
      assert OfferedFrom([], true) == OfferedFrom([], false) == [];
    } else {
      var init, last := events[..|events| - 1], events[|events| - 1];
      AllCommandsOffered(init, client);
      var e := Run(init, client);
      if Live(e) && Feasible(e, last) {
        DoHears(e, last, client, EventCommands(init, client));
      } else {
        assert EventCommands(init, client) + [] == EventCommands(init, client);
      }
    }
  }

  // ----- Commands

  /** A regular command on a context that is not closing: its callback waits behind all others,
      its bytes are behind all others in the output buffer, and nothing else is different. */
  lemma PassedCommand(e: Engine, c: Issued, client: Client)
    requires Live(e) && !e.disconnecting
    ensures Do(e, Call(Command(c, true)), client) ==
            e.(offered := e.offered + [Offer(c, true, false, false, false)],
               accepted := e.accepted + [c],
               pending := e.pending + [c.cb],
               wire := e.wire.(buffered := e.wire.buffered + c.cmd))
  {
  }

  /** Any other command changes nothing. */
  lemma RefusedCommand(e: Engine, c: Issued, regular: bool, client: Client)
    requires Live(e) && (e.disconnecting || !regular)
    ensures Do(e, Call(Command(c, regular)), client) ==
            e.(offered := e.offered + [Offer(c, regular, e.disconnecting, false, false)])
  {
  }

  // ----- Callbacks

  /** The commands that a callback gets accepted: the regular ones before it asks for the end. */
  function Effective(actions: seq<Action>): (cs: seq<Issued>) {
    if actions == [] then []
    else
      match actions[0]
      case Command(c, true) => [c] + Effective(actions[1..])
      case Command(_, false) => Effective(actions[1..])
      case _ => []
  }

  lemma {:induction false} CallbacksJoin(a: seq<Issued>, b: seq<Issued>)
    ensures Callbacks(a + b) == Callbacks(a) + Callbacks(b)
    ensures CommandBytes(a + b) == CommandBytes(a) + CommandBytes(b)
  {
    hide Callbacks;
    hide CommandBytes;
    if b == [] {
      assert a + b == a;
      NothingIssued();
      assert Callbacks(a) + [] == Callbacks(a) && CommandBytes(a) + [] == CommandBytes(a);
    } else {
      var init, last := b[..|b| - 1], b[|b| - 1];
      CallbacksJoin(a, init);
      AppendIssued(a + init, last);
      AppendIssued(init, last);
      assert a + b == a + init + [last] && b == init + [last];
      Associate(Callbacks(a), Callbacks(init), [last.cb]);
      Associate(CommandBytes(a), CommandBytes(init), last.cmd);
    }
  }

  lemma Associate<T>(a: seq<T>, b: seq<T>, c: seq<T>)
    ensures a + b + c == a + (b + c)
  {
  }

  lemma OneIssued(c: Issued)
    ensures Callbacks([c]) == [c.cb] && CommandBytes([c]) == c.cmd
  {
    assert [c][..0] == [];
  }

  /** What one action brings. */
  lemma ActBrings(e: Engine, a: Action)
    ensures var r := Act(e, a);
            && r.disconnecting == (e.disconnecting || a == Disconnect) && r.freeing == (e.freeing || a == Free)
            && SameHistory(e, r)
            && (a.Command? && a.regular && !Closing(e) ==>
                  && r.accepted == e.accepted + [a.issued] && r.pending == e.pending + [a.issued.cb]
                  && r.wire == e.wire.(buffered := e.wire.buffered + a.issued.cmd))
            && (!a.Command? || !a.regular || Closing(e) ==>
                  r.accepted == e.accepted && r.pending == e.pending && r.wire == e.wire)
  {
    hide OutputBuffer.Step;
    if a.Command? {
      AppendStep(e.wire, a.issued.cmd);
    }
  }

  lemma AppendStep(w: OutputBuffer.Wire, cmd: seq<byte>)
    ensures OutputBuffer.Step(w, OutputBuffer.Append(cmd)) == w.(buffered := w.buffered + cmd)
  {
  }

  /** The context after commands were accepted. */
  ghost predicate Took(e: Engine, cs: seq<Issued>, r: Engine) {
    && r.accepted == e.accepted + cs && r.pending == e.pending + Callbacks(cs)
    && r.wire == e.wire.(buffered := e.wire.buffered + CommandBytes(cs))
  }

  lemma TookNothing(e: Engine, r: Engine)
    requires r.accepted == e.accepted && r.pending == e.pending && r.wire == e.wire
    ensures Took(e, [], r)
  {
    assert e.wire.buffered + [] == e.wire.buffered;
  }

  lemma TookOneMore(e: Engine, c: Issued, e': Engine, cs: seq<Issued>, r: Engine)
    requires e'.accepted == e.accepted + [c] && e'.pending == e.pending + [c.cb]
    requires e'.wire == e.wire.(buffered := e.wire.buffered + c.cmd) && Took(e', cs, r)
    ensures Took(e, [c] + cs, r)
  {
    hide Callbacks;
    hide CommandBytes;
    CallbacksJoin([c], cs);
    OneIssued(c);
    Associate(e.accepted, [c], cs);
    Associate(e.pending, [c.cb], Callbacks(cs));
    Associate(e.wire.buffered, c.cmd, CommandBytes(cs));
  }

  lemma {:induction false} ActionsBring(e: Engine, actions: seq<Action>)
    requires !Closing(e)
    ensures Took(e, Effective(actions), ActAll(e, actions))
    decreases |actions|
  {
    hide Act;
    hide Took;
    if actions == [] {
      TookNothing(e, e);
    } else {
      var a, e' := actions[0], Act(e, actions[0]);
      ActBrings(e, a);
      if !a.Command? {
        TookNothing(e, ActAll(e', actions[1..]));
      } else {
        ActionsBring(e', actions[1..]);
        if a.regular {
          TookOneMore(e, a.issued, e', Effective(actions[1..]), ActAll(e', actions[1..]));
        } else {
          TookSame(e, e', Effective(actions[1..]), ActAll(e', actions[1..]));
        }
      }
    }
  }

  lemma TookSame(e: Engine, e': Engine, cs: seq<Issued>, r: Engine)
    requires e'.accepted == e.accepted && e'.pending == e.pending && e'.wire == e.wire && Took(e', cs, r)
    ensures Took(e, cs, r)
  {
  }

  lemma NothingIssued()
    ensures Callbacks([]) == [] && CommandBytes([]) == []
  {
  }

  lemma {:induction false} ActionsFlag(e: Engine, actions: seq<Action>)
    ensures var r := ActAll(e, actions);
            && r.disconnecting == (e.disconnecting || Disconnect in actions)
            && r.freeing == (e.freeing || Free in actions)
            && SameHistory(e, r)
    decreases |actions|
  {
    hide Act;
    if actions != [] {
      ActBrings(e, actions[0]);
      ActionsFlag(Act(e, actions[0]), actions[1..]);
      assert actions == [actions[0]] + actions[1..];
    }
  }

  /** What the first waiting callback brings about: it is called with the reply, and does what
      the client's next callback does; without a function nothing of the client runs. */
  lemma CallbackBrings(e: Engine, reply: Option<Reply>, client: Client)
    requires e.pending != [] && !e.inCallback
    ensures var r := Deliver(e, reply, client);
            var d := Delivery(e.pending[0], reply);
            var actions := if e.pending[0].hasFn then client(|e.calls|) else [];
            var cs := if Closing(e) then [] else Effective(actions);
            && r.delivered == e.delivered + [d] && r.calls == e.calls + (if e.pending[0].hasFn then [d] else [])
            && r.received == e.received + (if reply.Some? then [reply.value] else [])
            && r.pending == e.pending[1..] + Callbacks(cs) && r.accepted == e.accepted + cs
            && r.wire == e.wire.(buffered := e.wire.buffered + CommandBytes(cs))
            && r.disconnecting == (e.disconnecting || Disconnect in actions)
            && r.freeing == (e.freeing || Free in actions)
            && !r.inCallback && r.freed == e.freed && r.aborted == e.aborted
            && r.connected == e.connected && r.notified == e.notified
  {
    hide Callbacks;
    hide CommandBytes;
    hide ActAll;
    hide Effective;
    DeliverActs(e, reply, client);
    var t := Shifted(e, reply);
    if e.pending[0].hasFn {
      var entered, actions := t.(inCallback := true), client(|e.calls|);
      ActionsFlag(entered, actions);
      if Closing(e) {
        TookNothing(t, ActAll(entered, actions));
      } else {
        ActionsBring(entered, actions);
      }
    } else {
      TookNothing(t, t);
      NothingEffective();
    }
  }

  lemma NothingEffective()
    ensures Effective([]) == []
  {
  }

  // ----- How a context ends

  lemma {:induction false} DrainBrings(e: Engine, client: Client)
    requires Closing(e) && !e.inCallback
    ensures var r := Drain(e, client);
            && (e.freeing ==> r.freeing) && r.wire == e.wire && r.connected == e.connected && r.notified == e.notified
            && r.freed == e.freed && r.aborted == e.aborted && r.received == e.received
    decreases |e.pending|
  {
    hide Deliver;
    hide Effective;
    if e.pending != [] {
      CallbackBrings(e, None, client);
      DrainBrings(Deliver(e, None, client), client);
    }
  }

  /** A context that was freed: nothing waits any more, and a connected one has reported the
      disconnect. */
  ghost predicate Ended(e: Engine, r: Engine) {
    && r.freed && r.pending == [] && r.connected == e.connected && r.wire == e.wire && r.received == e.received
    && r.aborted == e.aborted && (e.freeing ==> r.freeing)
    && r.notified == e.notified + if e.connected then [r.freeing || !e.wire.failed] else []
  }

  lemma DestroyEnds(e: Engine, client: Client)
    requires Closing(e) && !e.inCallback
    ensures Ended(e, Destroy(e, client))
  {
    hide Drain;
    DrainBrings(e, client);
    assert e.notified + [] == e.notified;
  }

  lemma TeardownEnds(e: Engine, client: Client)
    requires !e.inCallback && (!e.wire.failed ==> e.pending == [] && e.disconnecting)
    ensures Ended(e, Teardown(e, client))
  {
    hide Destroy;
    DestroyEnds(if e.wire.failed then e.(disconnecting := true) else e, client);
  }

  /** Asking for the end from outside of callbacks: freeing is at once, and disconnecting too if
      no reply is due; otherwise only the flag is raised. */
  lemma AskedToEnd(e: Engine, client: Client)
    requires Live(e)
    ensures Ended(e.(freeing := true), Do(e, Call(Free), client))
    ensures e.pending == [] ==> Ended(e, Do(e, Call(Disconnect), client))
    ensures e.pending != [] ==> Do(e, Call(Disconnect), client) == e.(disconnecting := true)
  {
    hide Destroy;
    hide Teardown;
    DestroyEnds(e.(freeing := true), client);
    if e.pending == [] {
      TeardownEnds(e.(disconnecting := true), client);
    }
  }

  function Failed(e: Engine): (r: Engine) {
    e.(wire := e.wire.(failed := true))
  }

  /** The three ways to connect. A refused connection ends the context, and is reported to nobody
      because it was never connected; one in progress leaves an error behind. */
  lemma Connecting(e: Engine, event: Event, client: Client)
    requires Live(e) && Feasible(e, event) && !e.connected && !event.Call?
    ensures event.connect == Refused ==> Ended(Failed(e), Do(e, event, client))
    ensures event.connect == StillConnecting ==> Do(e, event, client) == Failed(e)
    ensures event.connect == Established ==> Do(e, event, client) == Do(e.(connected := true), event, client)
  {
    hide Teardown;
    hide Process;
    hide OutputBuffer.Step;
    TeardownEnds(Failed(e), client);
  }

  /** On a connected context a failing read, an error left behind and malformed input end it, and
      the disconnect is reported as an error unless the client frees it meanwhile. */
  lemma ReadEnds(e: Engine, connect: ConnectResult, readFails: bool, broken: bool, client: Client)
    requires Live(e) && e.connected && (readFails || broken || e.wire.failed)
    ensures Ended(Failed(e), Do(e, Readable(connect, readFails, [], broken), client))
  {
    hide Teardown;
    TeardownEnds(Failed(e), client);
  }

  /** So does a failing write, if there is anything to write. */
  lemma WriteEnds(e: Engine, connect: ConnectResult, client: Client)
    requires Live(e) && e.connected && !e.wire.failed && e.wire.buffered != []
    ensures Ended(Failed(e), Do(e, Writable(connect, OutputBuffer.WriteError), client))
  {
    hide Teardown;
    TeardownEnds(Failed(e), client);
  }

  /** A reply that nobody waits for ends the context if it is an error reply, and is a failed
      assertion otherwise. */
  lemma UnaskedReply(e: Engine, incoming: seq<Reply>, broken: bool, client: Client)
    requires Live(e) && e.connected && !e.wire.failed && e.pending == [] && incoming != []
    ensures var r := Do(e, Readable(Established, false, incoming, broken), client);
            if incoming[0].Error? then Ended(Failed(e), r) else r == e.(aborted := true)
  {
    hide Teardown;
    TeardownEnds(Failed(e), client);
  }

  /** A callback that frees the context: it is freed as soon as the callback returns, and no
      further reply is taken. */
  lemma FreeingCallback(e: Engine, incoming: seq<Reply>, broken: bool, client: Client)
    requires Live(e) && e.connected && !e.wire.failed && e.pending != [] && incoming != []
    requires e.pending[0].hasFn && Free in client(|e.calls|)
    ensures var r := Do(e, Readable(Established, false, incoming, broken), client);
            && r.freed && r.pending == [] && r.received == e.received + [incoming[0]]
            && r.notified == e.notified + [true]
  {
    hide Destroy;
    hide Deliver;
    hide Effective;
    CallbackBrings(e, Some(incoming[0]), client);
    DestroyEnds(Deliver(e, Some(incoming[0]), client), client);
  }

  /** A context that was asked to disconnect ends with the last reply that is due, and reports no
      error. */
  lemma {:induction false} LastReplyEnds(e: Engine, incoming: seq<Reply>, client: Client)
    requires e.disconnecting && !e.inCallback && !e.wire.failed && e.wire.buffered == []
    requires |incoming| == |e.pending|
    ensures var r := Process(e, incoming, false, client);
            && r.freed && r.pending == [] && r.wire == e.wire
            && r.notified == e.notified + (if e.connected then [true] else [])
    decreases |incoming|
  {
    hide Destroy;
    hide Teardown;
    hide Deliver;
    hide Effective;
    if incoming == [] {
      TeardownEnds(e, client);
    } else {
      CallbackBrings(e, Some(incoming[0]), client);
      NothingIssued();
      var r := Deliver(e, Some(incoming[0]), client);
      if e.pending[0].hasFn && r.freeing {
        DestroyEnds(r, client);
      } else {
        LastReplyEnds(r, incoming[1..], client);
      }
    }
  }
}

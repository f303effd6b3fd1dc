/** An asynchronous context and its reader together: read events carry bytes, and the
    replies that callbacks get are those of the bytes. */
module Connection {
  import opened Bytes
  import opened Resp
  import Engine = AsyncSpec
  import OutputBuffer
  import Machine

  datatype Event =
    | Call(action: Engine.Action)
    | Readable(connect: Engine.ConnectResult, readFails: bool, data: seq<byte>)
    | Writable(connect: Engine.ConnectResult, write: OutputBuffer.WriteResult)

  /** A context and all bytes it has read. */
  datatype Link = Link(engine: Engine.Engine, bytes: seq<byte>)

  // ----- What new bytes bring

  /** The replies that are complete with `data` and were not before. */
  ghost function NewReplies(bytes: seq<byte>, data: seq<byte>): (rs: seq<Reply>) {
    var before, after := Stream(bytes).replies, Stream(bytes + data).replies;
    if |before| <= |after| then after[|before|..] else []
  }

  lemma NewRepliesFollow(bytes: seq<byte>, data: seq<byte>)
    ensures Stream(bytes + data).replies == Stream(bytes).replies + NewReplies(bytes, data)
  {
    hide Stream;
    StreamGrows(bytes, data);
  }

  lemma {:induction false} StreamGrows(s: seq<byte>, more: seq<byte>)
    ensures Stream(s).replies <= Stream(s + more).replies
    ensures Stream(s).fault.Some? ==> Stream(s + more) == Stream(s)
    decreases |s|
  {
    hide ParseItem;
    Machine.ItemExtends(s, more);
    var p := ParseItem(0, s);
    if p.Done? {
      StreamGrows(p.rest, more);
    }
  }

  /** What a reader emits between two moments at which it is drained. */
  lemma ReaderEmits(ops: seq<Machine.Op>, ops': seq<Machine.Op>, data: seq<byte>)
    requires Machine.Drained(ops) && Machine.Drained(ops') && Machine.Fed(ops') == Machine.Fed(ops) + data
    ensures Machine.RunSession(ops').replies == Machine.RunSession(ops).replies + NewReplies(Machine.Fed(ops), data)
    ensures Machine.RunSession(ops').state.Broken? <==> Stream(Machine.Fed(ops) + data).fault.Some?
  {
    hide Machine.RunSession;
    hide Stream;
    NewRepliesFollow(Machine.Fed(ops), data);
    Machine.ChunkingInvariance(ops);
    Machine.ChunkingInvariance(ops');
  }

  // ----- Runs

  /** Whether an event gets as far as reading. */
  predicate Reads(e: Engine.Engine, event: Event, client: Engine.Client) {
    event.Readable? &&
    var c := Engine.Connect(e, event.connect, client);
    !c.freed && c.connected && !event.readFails && !c.wire.failed
  }

  /** The event as the engine sees it: with the replies that the bytes complete. */
  ghost function Seen(l: Link, event: Event): Engine.Event {
    match event
    case Call(action) => Engine.Call(action)
    case Readable(connect, readFails, data) =>
      Engine.Readable(connect, readFails, NewReplies(l.bytes, data), Stream(l.bytes + data).fault.Some?)
    case Writable(connect, write) => Engine.Writable(connect, write)
  }

  ghost function Run(events: seq<Event>, client: Engine.Client): Link {
    if events == [] then Link(Engine.Fresh, [])
    else
      var l, last := Run(events[..|events| - 1], client), events[|events| - 1];
      if Engine.Live(l.engine) && Engine.Feasible(l.engine, Seen(l, last)) then Next(l, last, client) else l
  }

  ghost function Next(l: Link, event: Event, client: Engine.Client): Link
    requires Engine.Live(l.engine) && Engine.Feasible(l.engine, Seen(l, event))
  {
    Link(Engine.Do(l.engine, Seen(l, event), client),
         if Reads(l.engine, event, client) then l.bytes + event.data else l.bytes)
  }

  ghost function Translated(events: seq<Event>, client: Engine.Client): seq<Engine.Event> {
    if events == [] then []
    else
      var init := events[..|events| - 1];
      Translated(init, client) + [Seen(Run(init, client), events[|events| - 1])]
  }

  /** So everything that holds of runs of the engine holds here. */
  lemma {:induction false} RunOfEngine(events: seq<Event>, client: Engine.Client)
    ensures Run(events, client).engine == Engine.Run(Translated(events, client), client)
  {
    hide Engine.Do;
    hide Seen;
    hide Reads;
    if events != [] {
      RunOfEngine(events[..|events| - 1], client);
      var es := Translated(events, client);
      assert es[..|es| - 1] == Translated(events[..|events| - 1], client);
    }
  }

  // ----- What the engine receives

  lemma TeardownReceives(e: Engine.Engine, client: Engine.Client)
    requires Engine.Consistent(e) && !e.inCallback
    requires !e.wire.failed ==> e.pending == [] && e.disconnecting
    ensures var r := Engine.Teardown(e, client); r.received == e.received && r.freed
  {
    hide Engine.Callbacks;
    hide Engine.Delivered;
    hide Engine.CommandBytes;
    hide Engine.Calls;
    hide Engine.InOrder;
    hide Engine.Taken;
    hide Engine.Drain;
    Engine.DestroyCompletes(if e.wire.failed then e.(disconnecting := true) else e, client);
  }

  /** A context that is still alive has received all of a batch, and any other a part. */
  ghost predicate TookIn(e: Engine.Engine, incoming: seq<Reply>, broken: bool, r: Engine.Engine) {
    && r.received <= e.received + incoming
    && (Engine.Live(r) ==> r.received == e.received + incoming && !broken)
  }

  lemma ServeReceives(e: Engine.Engine, reply: Reply, client: Engine.Client)
    requires Engine.Serving(e)
    ensures var (r, stop) := Engine.Serve(e, reply, client);
            && (stop ==> !Engine.Live(r) && r.received <= e.received + [reply])
            && (!stop ==> r.received == e.received + [reply])
  {
    hide Engine.Callbacks;
    hide Engine.Delivered;
    hide Engine.CommandBytes;
    hide Engine.Calls;
    hide Engine.InOrder;
    hide Engine.Taken;
    hide Engine.Deliver;
    hide Engine.Destroy;
    hide Engine.Teardown;
    if e.pending == [] {
      if reply.Error? {
        TeardownReceives(Engine.Fail(e), client);
      }
    } else {
      var r := Engine.Deliver(e, Some(reply), client);
      Engine.DeliverKeeps(e, Some(reply), client);
      if r.freeing {
        Engine.DestroyCompletes(r, client);
      }
    }
  }

  lemma {:induction false} ProcessReceives(e: Engine.Engine, incoming: seq<Reply>, broken: bool, client: Engine.Client)
    requires Engine.Serving(e)
    ensures TookIn(e, incoming, broken, Engine.Process(e, incoming, broken, client))
    decreases |incoming|
  {
    hide Engine.Consistent;
    hide Engine.Teardown;
    hide Engine.Serve;
    if incoming == [] {
      if broken {
        FailKeeps(e);
        TeardownReceives(Engine.Fail(e), client);
      } else if e.disconnecting && e.wire.buffered == [] && e.pending == [] {
        TeardownReceives(e, client);
      }
      assert e.received + incoming == e.received;
    } else {
      ServeReceives(e, incoming[0], client);
      Engine.ServeSound(e, incoming[0], client);
      var (r, stop) := Engine.Serve(e, incoming[0], client);
      assert e.received + [incoming[0]] + incoming[1..] == e.received + incoming;
      if !stop {
        ProcessReceives(r, incoming[1..], broken, client);
      }
    }
  }

  lemma FailKeeps(e: Engine.Engine)
    requires Engine.Consistent(e)
    ensures Engine.Consistent(Engine.Fail(e))
  {
  }

  /** Events that do not read receive nothing. */
  lemma OtherReceives(e: Engine.Engine, event: Engine.Event, client: Engine.Client)
    requires Engine.Usable(e) && Engine.Live(e) && Engine.Feasible(e, event)
    requires event.Readable? ==>
               var c := Engine.Connect(e, event.connect, client);
               c.freed || !c.connected || event.readFails || c.wire.failed
    ensures Engine.Do(e, event, client).received == e.received
  {
    hide Engine.Callbacks;
    hide Engine.Delivered;
    hide Engine.CommandBytes;
    hide Engine.Calls;
    hide Engine.InOrder;
    hide Engine.Taken;
    hide Engine.Teardown;
    hide Engine.Destroy;
    hide Engine.Process;
    hide OutputBuffer.Step;
    match event
    case Call(Command(c, regular)) =>
    case Call(Disconnect) =>
      var d := e.(disconnecting := true);
      if d.pending == [] {
        TeardownReceives(d, client);
      }
    case Call(Free) => Engine.DestroyCompletes(e.(freeing := true), client);
    case Readable(connect, readFails, incoming, broken) =>
      ConnectReceives(e, connect, client);
      var c := Engine.Connect(e, connect, client);
      if !c.freed && c.connected {
        TeardownReceives(Engine.Fail(c), client);
      }
    case Writable(connect, write) =>
      ConnectReceives(e, connect, client);
      var c := Engine.Connect(e, connect, client);
      if !c.freed && c.connected {
        Engine.WriteKeeps(c, write);
        var w := c.(wire := OutputBuffer.Step(c.wire, OutputBuffer.Write(write)));
        if w.wire.failed {
          TeardownReceives(w, client);
        }
      }
  }

  lemma ConnectReceives(e: Engine.Engine, connect: Engine.ConnectResult, client: Engine.Client)
    requires Engine.Usable(e)
    ensures var c := Engine.Connect(e, connect, client);
            c.received == e.received && (c.freed || (Engine.Usable(c) && c.wire == e.wire.(failed := c.wire.failed)))
  {
    hide Engine.Callbacks;
    hide Engine.Delivered;
    hide Engine.CommandBytes;
    hide Engine.Calls;
    hide Engine.InOrder;
    hide Engine.Taken;
    hide Engine.Teardown;
    Engine.ConnectSound(e, connect, client);
    if !e.connected && connect == Engine.Refused {
      TeardownReceives(Engine.Fail(e), client);
    }
  }

  /** What a context has received comes from the bytes it has read; while it is alive, that
      is every complete reply, and the bytes are well formed. */
  ghost predicate FromBytes(l: Link) {
    && l.engine.received <= Stream(l.bytes).replies
    && (Engine.Live(l.engine) ==> l.engine.received == Stream(l.bytes).replies && Stream(l.bytes).fault == None)
  }

  lemma NextFromBytes(l: Link, event: Event, client: Engine.Client)
    requires Engine.Sound(l.engine) && Engine.Live(l.engine) && Engine.Feasible(l.engine, Seen(l, event)) && FromBytes(l)
    ensures FromBytes(Next(l, event, client))
  {
    hide Engine.Consistent;
    hide Engine.Teardown;
    hide Engine.Destroy;
    hide Engine.Process;
    hide Stream;
    var e, seen := l.engine, Seen(l, event);
    assert Engine.Usable(e);
    if Reads(e, event, client) {
      NewRepliesFollow(l.bytes, event.data);
      ConnectReceives(e, event.connect, client);
      var c := Engine.Connect(e, event.connect, client);
      ProcessReceives(c, seen.incoming, seen.broken, client);
    } else {
      OtherReceives(e, seen, client);
    }
  }

  lemma {:induction false} RunFromBytes(events: seq<Event>, client: Engine.Client)
    ensures FromBytes(Run(events, client))
  {
    hide Engine.Sound;
    hide FromBytes;
    hide Next;
    hide Seen;
    if events == [] {
      NothingRead();
    } else {
      var init := events[..|events| - 1];
      RunFromBytes(init, client);
      RunOfEngine(init, client);
      Engine.RunSound(Translated(init, client), client);
      var l, last := Run(init, client), events[|events| - 1];
      if Engine.Live(l.engine) && Engine.Feasible(l.engine, Seen(l, last)) {
        NextFromBytes(l, last, client);
      }
    }
  }

  lemma NothingRead()
    ensures FromBytes(Link(Engine.Fresh, []))
  {
    assert ParseItem(0, []) == More;
  }

  /** Over every run in which bytes arrive in any pieces, and for every client: the k-th
      accepted command is called back with the k-th reply in the bytes, or with NULL. */
  lemma RepliesOfTheBytes(events: seq<Event>, client: Engine.Client)
    ensures var l := Run(events, client);
            var e, replies := l.engine, Stream(l.bytes).replies;
            && |e.received| <= |replies| && |e.received| <= |e.delivered| <= |e.accepted|
            && (forall k | 0 <= k < |e.delivered| ::
                  e.delivered[k] ==
                  Engine.Delivery(e.accepted[k].cb, if k < |e.received| then Some(replies[k]) else None))
            && (Engine.Live(e) ==> |e.received| == |e.delivered| == |replies|)
  {
    hide Run;
    hide Stream;
    hide Engine.Run;
    RunFromBytes(events, client);
    RunOfEngine(events, client);
    Engine.ExactlyOnceInOrder(Translated(events, client), client);
  }
}

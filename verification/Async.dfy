/** The asynchronous context of async.c: flags, a linked queue of callbacks and the
    output buffer, changed in place. Every method is proved to do on this state what
    module AsyncSpec says on values. */
module Async {
  import opened Bytes
  import opened Resp
  import opened OutputBuffer
  import opened AsyncSpec

  // ----- The callback queue

  class CallbackCell {
    const cb: Callback
    var next: CallbackCell?

    constructor (cb: Callback)
      ensures this.cb == cb && next == null
    {
      this.cb, next := cb, null;
    }
  }

  /** `redisCallbackList`: linked cells from `head` to `tail`. */
  class CallbackList {
    var head: CallbackCell?
    var tail: CallbackCell?
    ghost var cells: seq<CallbackCell>

    ghost predicate Valid()
      reads this, cells
    {
      && (cells == [] ==> head == null && tail == null)
      && (cells != [] ==> head == cells[0] && tail == cells[|cells| - 1] && cells[|cells| - 1].next == null)
      && (forall i | 0 < i < |cells| :: cells[i - 1].next == cells[i])
      && (forall i, j | 0 <= i < j < |cells| :: cells[i] != cells[j])
    }

    /** The callbacks in the queue, first to last. */
    ghost function Contents(): (s: seq<Callback>)
      reads this
      ensures |s| == |cells| && forall i | 0 <= i < |cells| :: s[i] == cells[i].cb
    {
      var cs := cells;
      seq(|cs|, i requires 0 <= i < |cs| => cs[i].cb)
    }

    constructor ()
      ensures Valid() && cells == []
    {
      head, tail, cells := null, null, [];
    }

    /** `__redisPushCallback`. */
    method Push(source: Callback)
      requires Valid()
      modifies this, cells
      ensures Valid() && Contents() == old(Contents()) + [source]
      ensures |cells| == |old(cells)| + 1 && cells[..|old(cells)|] == old(cells) && fresh(cells[|old(cells)|])
    {
      var cb := new CallbackCell(source);
      if head == null {
        head := cb;
      }
      if tail != null {
        tail.next := cb;
      }
      tail := cb;
      cells := cells + [cb];
    }

    /** `__redisShiftCallback`. */
    method Shift() returns (target: Option<Callback>)
      requires Valid()
      modifies this
      ensures Valid()
      ensures old(cells) == [] ==> target == None && cells == []
      ensures old(cells) != [] ==>
                && target == Some(old(Contents())[0])
                && cells == old(cells)[1..] && Contents() == old(Contents())[1..]
    {
      var cb := head;
      if cb == null {
        return None;
      }
      head := cb.next;
      if cb == tail {
        tail := null;
      }
      target := Some(cb.cb);
      cells := cells[1..];
    }
  }

  // ----- The context

  /** `redisAsyncContext`. The ghost fields record what happened to it. */
  class AsyncContext {
    var connected: bool
    var disconnecting: bool
    var freeing: bool
    var inCallback: bool
    const c: Context
    const replies: CallbackList
    var err: bool
    var invoked: nat  // how many callbacks of the client have run

    ghost var freed: bool
    ghost var aborted: bool
    ghost var offered: seq<Offer>
    ghost var accepted: seq<Issued>
    ghost var received: seq<Reply>
    ghost var delivered: seq<Delivery>
    ghost var calls: seq<Delivery>
    ghost var notified: seq<bool>
    ghost var repr: set<object>

    ghost predicate Valid()
      reads this, repr
    {
      && this in repr && c in repr && replies in repr
      && (forall cell | cell in replies.cells :: cell in repr)
      && replies.Valid() && invoked == |calls|
    }

    ghost function View(): Engine
      reads this, c, replies
    {
      Engine(connected, disconnecting, freeing, inCallback, c.View(), replies.Contents(), freed, aborted,
             offered, accepted, received, delivered, calls, notified)
    }

    /** `redisAsyncInitialize`. */
    constructor ()
      ensures Valid() && fresh(repr) && View() == Fresh
    {
      connected, disconnecting, freeing, inCallback, err := false, false, false, false, false;
      c := new Context();
      replies := new CallbackList();
      freed, aborted, invoked := false, false, 0;
      offered, accepted, received, delivered, calls, notified := [], [], [], [], [], [];
      new;
      repr := {this, c, replies};
    }

    /** `__redisAsyncCommand`; an unsubscribe is refused, because the context is
        never subscribed. */
    method AsyncCommand(cb: Callback, cmd: seq<byte>, regular: bool) returns (ok: bool)
      requires Valid()
      modifies repr
      ensures Valid() && fresh(repr - old(repr))
      ensures View() == Issue(old(View()), Issued(cb, cmd), regular)
      ensures ok == (!old(Closing(View())) && regular)
    {
      // a context that is closing takes nothing on
      if disconnecting || freeing {
        return false;
      }
      if !regular {
        return false;
      }
      replies.Push(cb);
      repr := repr + {replies.cells[|replies.cells| - 1]};
      c.AppendCommand(cmd);
      accepted := accepted + [Issued(cb, cmd)];
      return true;
    }

    /** Client code passes a command, from inside a callback or outside. */
    method PassCommand(issued: Issued, regular: bool) returns (ok: bool)
      requires Valid()
      modifies repr
      ensures Valid() && fresh(repr - old(repr)) && inCallback == old(inCallback)
      ensures View() == Issue(Offered(old(View()), issued, regular), issued, regular)
      ensures ok == (!old(Closing(View())) && regular)
    {
      hide CallbackList.Valid;
      hide CallbackList.Contents;
      hide Step;
      offered := offered + [Offer(issued, regular, disconnecting, freeing, inCallback)];
      ok := AsyncCommand(issued.cb, issued.cmd, regular);
    }

    /** What the client does while one of its callbacks runs. */
    method ActInCallback(action: Action, client: Client)
      requires Valid() && inCallback
      modifies repr
      ensures Valid() && fresh(repr - old(repr)) && inCallback
      ensures View() == Act(old(View()), action)
      decreases !inCallback, 8
    {
      match action {
        case Command(issued, regular) => var ok := PassCommand(issued, regular);
        case Disconnect => AsyncDisconnect(client);
        case Free => AsyncFree(client);
      }
    }

    /** The body of a callback of the client. */
    method Perform(actions: seq<Action>, client: Client)
      requires Valid() && inCallback
      modifies repr
      ensures Valid() && fresh(repr - old(repr)) && inCallback
      ensures View() == ActAll(old(View()), actions)
      decreases !inCallback, 9
    {
      hide ActAll;
      hide Act;
      assert actions[0..] == actions;
      var i := 0;
      while i < |actions|
        invariant i <= |actions| && Valid() && fresh(repr - old(repr)) && inCallback
        invariant ActAll(View(), actions[i..]) == ActAll(old(View()), actions)
      {
        ActStep(View(), actions[i..]);
        assert actions[i..][1..] == actions[i + 1..];
        ActInCallback(actions[i], client);
        i := i + 1;
      }
      ActNone(View(), actions[i..]);
    }

    /** Raises the flag and records the call. */
    method EnterCallback(d: Delivery)
      requires Valid()
      modifies this`inCallback, this`invoked, this`calls
      ensures Valid() && inCallback && View() == old(View()).(inCallback := true, calls := old(calls) + [d])
    {
      inCallback := true;
      invoked := invoked + 1;
      calls := calls + [d];
    }

    /** `__redisRunCallback`; `client` says what each call does. */
    method RunCallback(cb: Callback, reply: Option<Reply>, client: Client)
      requires Valid() && !inCallback
      modifies repr
      ensures Valid() && fresh(repr - old(repr)) && !inCallback
      ensures View() == AsyncSpec.RunCallback(old(View()), Delivery(cb, reply), client)
      decreases !inCallback, 1
    {
      hide ActAll;
      hide Act;
      hide Context.View;
      hide CallbackList.Valid;
      hide CallbackList.Contents;
      if cb.hasFn {
        var actions := client(invoked);
        EnterCallback(Delivery(cb, reply));
        Perform(actions, client);
        inCallback := false;
      }
    }

    /** Takes the first callback off the queue, if there is one, and runs it. */
    method ShiftAndRun(reply: Option<Reply>, client: Client) returns (cb: Option<Callback>)
      requires Valid() && !inCallback
      modifies repr
      ensures Valid() && fresh(repr - old(repr)) && !inCallback
      ensures old(View()).pending == [] ==> cb == None && View() == old(View())
      ensures old(View()).pending != [] ==>
                cb == Some(old(View()).pending[0]) && View() == Deliver(old(View()), reply, client)
      decreases !inCallback, 2
    {
      hide AsyncSpec.RunCallback;
      hide CallbackList.Contents;
      hide CallbackList.Valid;
      hide Context.View;
      cb := replies.Shift();
      if cb.Some? {
        delivered := delivered + [Delivery(cb.value, reply)];
        received := if reply.Some? then received + [reply.value] else received;
        RunCallback(cb.value, reply, client);
      }
    }

    /** The loop of `__redisAsyncFree` over the pending callbacks. */
    method DrainCallbacks(client: Client)
      requires Valid() && !inCallback && Closing(View())
      modifies repr
      ensures Valid() && fresh(repr - old(repr)) && !inCallback
      ensures View() == Drain(old(View()), client)
      decreases !inCallback, 3
    {
      hide Deliver;
      hide Drain;
      hide CallbackList.Contents;
      hide CallbackList.Valid;
      while true
        invariant Valid() && fresh(repr - old(repr)) && !inCallback
        invariant Closing(View()) && Drain(View(), client) == Drain(old(View()), client)
        decreases |View().pending|
      {
        DrainStep(View(), client);
        var cb := ShiftAndRun(None, client);
        if cb.None? {
          return;
        }
      }
    }

    /** `__redisAsyncFree`. */
    method Destroy(client: Client)
      requires Valid() && !inCallback && Closing(View())
      modifies repr
      ensures Valid() && fresh(repr - old(repr)) && !inCallback
      ensures View() == AsyncSpec.Destroy(old(View()), client)
      decreases !inCallback, 4
    {
      hide Drain;
      hide CallbackList.Contents;
      hide CallbackList.Valid;
      DrainCallbacks(client);
      if connected {
        notified := notified + [freeing || !c.err];
      }
      freed := true;
    }

    /** `redisAsyncFree`: deferred while a callback runs. */
    method AsyncFree(client: Client)
      requires Valid()
      modifies repr
      ensures Valid() && fresh(repr - old(repr))
      ensures View() ==
              var e := old(View()).(freeing := true);
              if old(inCallback) then e else AsyncSpec.Destroy(e, client)
      decreases !inCallback, 7
    {
      freeing := true;
      if !inCallback {
        Destroy(client);
      }
    }

    /** `__redisAsyncDisconnect`. */
    method Teardown(client: Client)
      requires Valid() && !inCallback
      requires !c.err ==> View().pending == [] && disconnecting
      modifies repr
      ensures Valid() && fresh(repr - old(repr)) && !inCallback
      ensures View() == AsyncSpec.Teardown(old(View()), client)
      decreases !inCallback, 5
    {
      // callers see the error of the connection here
      err := c.err;
      if !err {
        // nothing may be waiting any more
        var ret := replies.Shift();
        assert ret == None;
      } else {
        disconnecting := true;
      }
      assert View() == if old(c.err) then old(View()).(disconnecting := true) else old(View());
      Destroy(client);
    }

    /** `redisAsyncDisconnect`: deferred while a callback runs or replies are due. */
    method AsyncDisconnect(client: Client)
      requires Valid()
      modifies repr
      ensures Valid() && fresh(repr - old(repr))
      ensures View() ==
              var e := old(View()).(disconnecting := true);
              if old(inCallback) || e.pending != [] then e else AsyncSpec.Teardown(e, client)
      decreases !inCallback, 6
    {
      disconnecting := true;
      if !inCallback && replies.head == null {
        Teardown(client);
      }
    }

    /** One round of the loop of `redisProcessCallbacks`. */
    method ServeReply(reply: Reply, client: Client) returns (stop: bool)
      requires Valid() && !inCallback
      modifies repr
      ensures Valid() && fresh(repr - old(repr)) && !inCallback
      ensures (View(), stop) == Serve(old(View()), reply, client)
    {
      hide Deliver;
      hide AsyncSpec.Destroy;
      hide CallbackList.Contents;
      hide Step;
      hide CallbackList.Valid;
      var cb := ShiftAndRun(Some(reply), client);
      if cb.None? {
        if reply.Error? {
          c.err := true;
          Teardown(client);
        } else {
          // a reply that nobody asked for: the assertion fails
          aborted := true;
        }
        return true;
      }
      // the callback has asked for the end
      if cb.value.hasFn && freeing {
        Destroy(client);
        return true;
      }
      return false;
    }

    /** `redisProcessCallbacks`. */
    method ProcessCallbacks(incoming: seq<Reply>, broken: bool, client: Client)
      requires Valid() && !inCallback
      modifies repr
      ensures Valid() && fresh(repr - old(repr)) && !inCallback
      ensures View() == Process(old(View()), incoming, broken, client)
    {
      hide Serve;
      hide EndOfReplies;
      ghost var final := Process(View(), incoming, broken, client);
      assert incoming[0..] == incoming;
      var i := 0;
      while i < |incoming|
        invariant i <= |incoming| && Valid() && fresh(repr - old(repr)) && !inCallback
        invariant Process(View(), incoming[i..], broken, client) == final
      {
        assert incoming[i..][1..] == incoming[i + 1..];
        var stop := ServeReply(incoming[i], client);
        if stop {
          return;
        }
        i := i + 1;
      }
      NoMoreReplies(broken, client);
    }

    /** The end of `redisProcessCallbacks`. */
    method NoMoreReplies(broken: bool, client: Client)
      requires Valid() && !inCallback
      modifies repr
      ensures Valid() && fresh(repr - old(repr)) && !inCallback
      ensures View() == EndOfReplies(old(View()), broken, client)
    {
      hide AsyncSpec.Teardown;
      if broken {
        // the rest of the input is malformed
        c.err := true;
        Teardown(client);
      } else if disconnecting && |c.obuf| == 0 && replies.head == null {
        // everything asked for was answered
        Teardown(client);
      }
    }

    /** `__redisAsyncHandleConnect`, if the context is not connected yet. */
    method HandleConnect(result: ConnectResult, client: Client) returns (ok: bool)
      requires Valid() && !inCallback
      modifies repr
      ensures Valid() && fresh(repr - old(repr)) && !inCallback
      ensures ok == (old(connected) || result != Refused)
      ensures View() == Connect(old(View()), result, client)
    {
      hide CallbackList.Valid;
      hide CallbackList.Contents;
      hide Step;
      hide AsyncSpec.Teardown;
      ok := true;
      if connected {
        return;
      }
      match result {
        case StillConnecting =>
          // the check of the socket has recorded an error all the same
          c.err := true;
        case Refused =>
          c.err := true;
          Teardown(client);
          ok := false;
        case Established => connected := true;
      }
    }

    /** `redisAsyncHandleRead`. */
    method HandleRead(connect: ConnectResult, readFails: bool, incoming: seq<Reply>, broken: bool, client: Client)
      requires Valid() && Live(View())
      modifies repr
      ensures Valid() && fresh(repr - old(repr))
      ensures View() == Do(old(View()), Readable(connect, readFails, incoming, broken), client)
    {
      hide CallbackList.Valid;
      hide CallbackList.Contents;
      hide Step;
      hide AsyncSpec.Teardown;
      hide Process;
      TeardownFrees(AsyncSpec.Fail(View()), client);
      var up := HandleConnect(connect, client);
      if !up || !connected {
        return;
      }
      if c.err || readFails {
        c.err := true;
        Teardown(client);
      } else {
        ProcessCallbacks(incoming, broken, client);
      }
    }

    /** `redisAsyncHandleWrite`. */
    method HandleWrite(connect: ConnectResult, write: WriteResult, client: Client)
      requires Valid() && Live(View()) && Possible(View().wire, Write(write))
      modifies repr
      ensures Valid() && fresh(repr - old(repr))
      ensures View() == Do(old(View()), Writable(connect, write), client)
    {
      hide CallbackList.Valid;
      hide CallbackList.Contents;
      hide Step;
      hide AsyncSpec.Teardown;
      TeardownFrees(AsyncSpec.Fail(View()), client);
      var up := HandleConnect(connect, client);
      if !up || !connected {
        return;
      }
      var ok, done := c.BufferWrite(write);
      if !ok {
        Teardown(client);
      }
    }
  }

  /** Any event outside of callbacks does to the context what `Do` does. */
  method Handle(ac: AsyncContext, event: AsyncSpec.Event, client: Client)
    requires ac.Valid() && Live(ac.View()) && AsyncSpec.Feasible(ac.View(), event)
    modifies ac.repr
    ensures ac.Valid() && fresh(ac.repr - old(ac.repr))
    ensures ac.View() == Do(old(ac.View()), event, client)
  {
    hide AsyncSpec.Teardown;
    hide AsyncSpec.Destroy;
    hide Process;
    match event {
      case Call(Command(issued, regular)) => var ok := ac.PassCommand(issued, regular);
      case Call(Disconnect) => ac.AsyncDisconnect(client);
      case Call(Free) => ac.AsyncFree(client);
      case Readable(connect, readFails, incoming, broken) =>
        ac.HandleRead(connect, readFails, incoming, broken, client);
      case Writable(connect, write) => ac.HandleWrite(connect, write, client);
    }
  }

  lemma ActStep(e: Engine, actions: seq<Action>)
    requires actions != []
    ensures ActAll(e, actions) == ActAll(Act(e, actions[0]), actions[1..])
  {
  }

  lemma ActNone(e: Engine, actions: seq<Action>)
    requires actions == []
    ensures ActAll(e, actions) == e
  {
  }

  lemma DrainStep(e: Engine, client: Client)
    requires Closing(e)
    ensures e.pending == [] ==> Drain(e, client) == e
    ensures e.pending != [] ==> Closing(Deliver(e, None, client)) && Drain(e, client) == Drain(Deliver(e, None, client), client)
  {
  }

  lemma TeardownFrees(e: Engine, client: Client)
    requires !e.wire.failed ==> e.pending == [] && e.disconnecting
    ensures AsyncSpec.Teardown(e, client).freed
  {
  }
}

/** The reader of read.c on values: an explicit stack of unfinished arrays, a
    remembered type byte and the unread bytes. It is shown to compute what the
    recursive-descent parser of module Resp computes, however its input is cut. */
module Machine {
  import opened Bytes
  import opened Resp

  /** An array of `total` slots whose first |filled| slots are filled; the item
      being read goes into the next slot. */
  datatype Ctx = Ctx(total: nat, filled: seq<Reply>)

  /** What the reader holds between two calls, and at the end of a reply. */
  datatype State =
    | Reading(ctxs: seq<Ctx>, ty: Option<byte>, unread: seq<byte>)
    | Complete(reply: Reply, unread: seq<byte>)
    | Broken(fault: Fault)

  const Idle: State := Reading([], None, [])

  ghost predicate WellFormed(st: State) {
    st.Reading? ==>
      && |st.ctxs| <= MAX_LEVEL
      && (forall i | 0 <= i < |st.ctxs| :: |st.ctxs[i].filled| < st.ctxs[i].total <= INT_MAX)
      && (st.ty.Some? ==> IsTypeByte(st.ty.value))
  }

  // ----- The steps of the machine

  /** `moveToNextTask`: the item in the current slot is finished. */
  ghost function Advance(ctxs: seq<Ctx>, v: Reply, unread: seq<byte>): State {
    if ctxs == [] then Complete(v, unread) else
      var outer, top := ctxs[..|ctxs| - 1], ctxs[|ctxs| - 1];
      var filled := top.filled + [v];
      if |filled| == top.total then Advance(outer, Array(filled), unread)
      else Reading(outer + [top.(filled := filled)], None, unread)
  }

  /** `processItem` after the type byte is known. */
  ghost function ProcessTyped(ctxs: seq<Ctx>, ty: byte, unread: seq<byte>): State
    requires |ctxs| <= MAX_LEVEL && IsTypeByte(ty)
  {
    match ParseHead(|ctxs|, ty, unread)
    case More => Reading(ctxs, Some(ty), unread)
    case Fail(f) => Broken(f)
    case Done(Value(v), rest) => Advance(ctxs, v, rest)
    case Done(Open(n), rest) => Reading(ctxs + [Ctx(n, [])], None, rest)
  }

  /** `processItem`. */
  ghost function Process(st: State): State
    requires st.Reading? && WellFormed(st)
  {
    if st.ty.Some? then ProcessTyped(st.ctxs, st.ty.value, st.unread)
    else if st.unread == [] then st
    else if !IsTypeByte(st.unread[0]) then Broken(BadTypeByte(st.unread[0]))
    else ProcessTyped(st.ctxs, st.unread[0], st.unread[1..])
  }

  /** No item can be finished from the bytes at hand. */
  ghost predicate Blocked(st: State)
    requires st.Reading? && WellFormed(st)
  {
    if st.ty.Some? then ParseHead(|st.ctxs|, st.ty.value, st.unread).More?
    else
      || st.unread == []
      || (IsTypeByte(st.unread[0]) && ParseHead(|st.ctxs|, st.unread[0], st.unread[1..]).More?)
  }

  /** The loop of `redisReaderGetReply`. */
  ghost function Run(st: State): State
    requires WellFormed(st)
    decreases if st.Reading? then |st.unread| else 0, if st.Reading? then 1 else 0
  {
    if !st.Reading? then st
    else if Blocked(st) then Process(st)
    else
      ProcessShrinks(st);
      Run(Process(st))
  }

  /** The three cases of `Advance`. */
  lemma AdvanceCases(ctxs: seq<Ctx>, v: Reply, unread: seq<byte>)
    ensures ctxs == [] ==> Advance(ctxs, v, unread) == Complete(v, unread)
    ensures ctxs != [] ==>
              var outer, top := ctxs[..|ctxs| - 1], ctxs[|ctxs| - 1];
              var filled := top.filled + [v];
              Advance(ctxs, v, unread) ==
              if |filled| == top.total then Advance(outer, Array(filled), unread)
              else Reading(outer + [top.(filled := filled)], None, unread)
  {
  }

  lemma {:induction false} AdvanceKeeps(ctxs: seq<Ctx>, v: Reply, unread: seq<byte>)
    requires WellFormed(Reading(ctxs, None, unread))
    ensures WellFormed(Advance(ctxs, v, unread)) && !Advance(ctxs, v, unread).Broken?
    ensures Advance(ctxs, v, unread).unread == unread
    decreases |ctxs|
  {
    if ctxs != [] {
      var outer, top := ctxs[..|ctxs| - 1], ctxs[|ctxs| - 1];
      AdvanceKeeps(outer, Array(top.filled + [v]), unread);
    }
  }

  /** The machine breaks exactly when the item it is at is malformed. */
  lemma BreaksOnFault(ctxs: seq<Ctx>, ty: byte, unread: seq<byte>)
    requires WellFormed(Reading(ctxs, Some(ty), unread))
    ensures ProcessTyped(ctxs, ty, unread).Broken? <==> ParseHead(|ctxs|, ty, unread).Fail?
  {
    hide ParseHead;
    hide Advance;
    var p := ParseHead(|ctxs|, ty, unread);
    if p.Done? && p.value.Value? {
      AdvanceKeeps(ctxs, p.value.reply, p.rest);
    }
  }

  /** Every item that is processed leaves fewer bytes unread. */
  lemma ProcessShrinks(st: State)
    requires st.Reading? && WellFormed(st)
    ensures WellFormed(Process(st))
    ensures !Blocked(st) && Process(st).Reading? ==> |Process(st).unread| < |st.unread|
    ensures Blocked(st) ==> Process(st).Reading? && Blocked(Process(st))
  {
    hide ParseHead;
    hide Advance;
    if st.ty.Some? || (st.unread != [] && IsTypeByte(st.unread[0])) {
      var ty := if st.ty.Some? then st.ty.value else st.unread[0];
      var s := if st.ty.Some? then st.unread else st.unread[1..];
      var p := ParseHead(|st.ctxs|, ty, s);
      if p.Done? && p.value.Value? {
        AdvanceKeeps(st.ctxs, p.value.reply, p.rest);
      }
    }
  }

  /** The reader stops in a state that needs more bytes. */
  ghost predicate Waiting(st: State) {
    WellFormed(st) && !st.Complete? && (st.Reading? ==> st.ty == Some(STAR) ==> |st.ctxs| < MAX_LEVEL)
  }

  /** Without unread bytes there is nothing to do. */
  lemma NothingUnread(st: State)
    requires Waiting(st) && st.Reading? && st.unread == []
    ensures Run(st) == st
  {
    if st.ty.Some? {
      assert FirstCrlf(st.unread) == None;
    }
  }

  lemma RunStep(st: State)
    requires WellFormed(st)
    ensures !st.Reading? ==> Run(st) == st
    ensures st.Reading? ==> WellFormed(Process(st)) && Run(st) == if Blocked(st) then Process(st) else Run(Process(st))
  {
    if st.Reading? {
      ProcessShrinks(st);
    }
  }

  lemma {:induction false} RunStops(st: State)
    requires WellFormed(st)
    ensures WellFormed(Run(st))
    ensures Run(st).Reading? ==> Blocked(Run(st)) && Waiting(Run(st))
    decreases if st.Reading? then |st.unread| else 0, if st.Reading? then 1 else 0
  {
    hide Advance;
    if st.Reading? {
      ProcessShrinks(st);
      if !Blocked(st) {
        RunStops(Process(st));
      }
    }
  }

  // ----- What a state still has to read, in terms of the recursive parser

  /** Completes the unfinished arrays around an item by recursive descent. */
  ghost function Unwind(ctxs: seq<Ctx>, p: Parsed<Reply>): Parsed<Reply>
    requires |ctxs| <= MAX_LEVEL
    requires forall i | 0 <= i < |ctxs| :: |ctxs[i].filled| < ctxs[i].total
  {
    if !p.Done? || ctxs == [] then p else
      var outer, top := ctxs[..|ctxs| - 1], ctxs[|ctxs| - 1];
      match ParseItems(|ctxs|, top.total - |top.filled| - 1, p.rest)
      case More => More
      case Fail(f) => Fail(f)
      case Done(vs, rest) => Unwind(outer, Done(Array(top.filled + [p.value] + vs), rest))
  }

  /** The outcome of the recursive parser on the reply `st` is in the middle of,
      when `more` arrives after the unread bytes. */
  ghost function Future(st: State, more: seq<byte>): Parsed<Reply>
    requires WellFormed(st)
  {
    match st
    case Broken(f) => Fail(f)
    case Complete(v, unread) => Done(v, unread + more)
    case Reading(ctxs, ty, unread) =>
      Unwind(ctxs, if ty.Some? then ParseBody(|ctxs|, ty.value, unread + more) else ParseItem(|ctxs|, unread + more))
  }

  lemma {:induction false} AdvanceFuture(ctxs: seq<Ctx>, v: Reply, unread: seq<byte>, more: seq<byte>)
    requires WellFormed(Reading(ctxs, None, unread))
    ensures WellFormed(Advance(ctxs, v, unread))
    ensures Future(Advance(ctxs, v, unread), more) == Unwind(ctxs, Done(v, unread + more))
    decreases |ctxs|
  {
    AdvanceKeeps(ctxs, v, unread);
    if ctxs != [] {
      var outer, top := ctxs[..|ctxs| - 1], ctxs[|ctxs| - 1];
      var filled := top.filled + [v];
      if |filled| == top.total {
        AdvanceFuture(outer, Array(filled), unread, more);
        assert filled + [] == filled;
      } else {
        NextSlot(ctxs, v, unread + more);
      }
    }
  }

  /** Filling a slot and parsing the next one is parsing the rest of the array. */
  lemma NextSlot(ctxs: seq<Ctx>, v: Reply, s: seq<byte>)
    requires WellFormed(Reading(ctxs, None, s)) && ctxs != []
    requires |ctxs[|ctxs| - 1].filled| + 1 < ctxs[|ctxs| - 1].total
    ensures var outer, top := ctxs[..|ctxs| - 1], ctxs[|ctxs| - 1];
            Unwind(outer + [top.(filled := top.filled + [v])], ParseItem(|ctxs|, s)) == Unwind(ctxs, Done(v, s))
  {
    hide ParseItem;
    var outer, top := ctxs[..|ctxs| - 1], ctxs[|ctxs| - 1];
    var ctxs' := outer + [top.(filled := top.filled + [v])];
    assert ctxs'[..|ctxs'| - 1] == outer;
    var left := top.total - |top.filled| - 1;
    var p := ParseItem(|ctxs|, s);
    if p.Done? {
      var q := ParseItems(|ctxs|, left - 1, p.rest);
      if q.Done? {
        assert top.filled + [v] + [p.value] + q.value == top.filled + [v] + ([p.value] + q.value);
      }
    }
  }

  /** One step of the machine does not change what the recursive parser finds,
      whatever arrives later. */
  lemma ProcessFuture(st: State, more: seq<byte>)
    requires st.Reading? && WellFormed(st)
    ensures WellFormed(Process(st))
    ensures Future(Process(st), more) == Future(st, more)
  {
    ProcessShrinks(st);
    if st.ty.None? && st.unread != [] {
      assert (st.unread + more)[1..] == st.unread[1..] + more;
    }
    if st.ty.Some? || (st.unread != [] && IsTypeByte(st.unread[0])) {
      var ty := if st.ty.Some? then st.ty.value else st.unread[0];
      var s := if st.ty.Some? then st.unread else st.unread[1..];
      TypedFuture(st.ctxs, ty, s, more);
    }
  }

  lemma UnwindFails(ctxs: seq<Ctx>, f: Fault)
    requires WellFormed(Reading(ctxs, None, []))
    ensures Unwind(ctxs, Fail(f)) == Fail(f)
  {
  }

  lemma TypedFuture(ctxs: seq<Ctx>, ty: byte, s: seq<byte>, more: seq<byte>)
    requires WellFormed(Reading(ctxs, Some(ty), s))
    requires WellFormed(ProcessTyped(ctxs, ty, s))
    ensures Future(ProcessTyped(ctxs, ty, s), more) == Unwind(ctxs, ParseBody(|ctxs|, ty, s + more))
  {
    hide ParseHead;
    hide Advance;
    hide ParseItems;
    hide ParseItem;
    hide Unwind;
    HeadExtends(|ctxs|, ty, s, more);
    match ParseHead(|ctxs|, ty, s)
    case More =>
    case Fail(f) => UnwindFails(ctxs, f);
    case Done(Value(v), rest) => AdvanceFuture(ctxs, v, rest, more);
    case Done(Open(n), rest) => OpenFuture(ctxs, n, rest + more);
  }

  /** Pushing an array and parsing its first item is parsing all its items. */
  lemma OpenFuture(ctxs: seq<Ctx>, n: nat, s: seq<byte>)
    requires WellFormed(Reading(ctxs, None, s)) && |ctxs| < MAX_LEVEL && 0 < n
    ensures var p := ParseItems(|ctxs| + 1, n, s);
            Unwind(ctxs + [Ctx(n, [])], ParseItem(|ctxs| + 1, s)) ==
            Unwind(ctxs, match p case More => More case Fail(f) => Fail(f) case Done(vs, rest) => Done(Array(vs), rest))
  {
    hide ParseItem;
    var ctxs' := ctxs + [Ctx(n, [])];
    assert ctxs'[..|ctxs'| - 1] == ctxs;
    var p := ParseItem(|ctxs'|, s);
    if p.Done? {
      var q := ParseItems(|ctxs'|, n - 1, p.rest);
      if q.Done? {
        assert [] + [p.value] + q.value == [p.value] + q.value;
      }
    }
  }

  lemma BlockedFuture(st: State)
    requires st.Reading? && WellFormed(st) && Blocked(st)
    ensures Future(st, []) == More
  {
    assert st.unread + [] == st.unread;
    if st.ty.Some? {
      assert ParseBody(|st.ctxs|, st.ty.value, st.unread) == More;
    } else if st.unread != [] {
      assert ParseBody(|st.ctxs|, st.unread[0], st.unread[1..]) == More;
      assert ParseItem(|st.ctxs|, st.unread) == More;
    }
  }

  lemma {:induction false} RunFuture(st: State, more: seq<byte>)
    requires WellFormed(st)
    ensures WellFormed(Run(st))
    ensures Future(Run(st), more) == Future(st, more)
    ensures Run(st).Reading? ==> Blocked(Run(st))
    decreases if st.Reading? then |st.unread| else 0, if st.Reading? then 1 else 0
  {
    if st.Reading? {
      ProcessFuture(st, more);
      ProcessShrinks(st);
      if !Blocked(st) {
        RunFuture(Process(st), more);
      }
    }
  }

  /** Whenever the stack is empty again, the reply that is emitted is the
      recursive parse of exactly the bytes consumed; the loop stops without a
      reply exactly when the recursive parser needs more bytes, and it breaks
      exactly when the recursive parser fails. */
  lemma RunRefinesParser(s: seq<byte>)
    ensures match Run(Reading([], None, s))
            case Complete(v, rest) => ParseItem(0, s) == Done(v, rest)
            case Broken(f) => ParseItem(0, s) == Fail(f)
            case Reading(_, _, _) => ParseItem(0, s) == More
  {
    var st := Reading([], None, s);
    assert s + [] == s;
    RunFuture(st, []);
    match Run(st)
    case Complete(v, rest) => assert rest + [] == rest;
    case Broken(f) =>
    case Reading(_, _, _) => BlockedFuture(Run(st));
  }

  /** An item that is complete or malformed is not changed by bytes that arrive later. */
  lemma ItemExtends(s: seq<byte>, more: seq<byte>)
    ensures match ParseItem(0, s)
            case Done(v, rest) => ParseItem(0, s + more) == Done(v, rest + more)
            case Fail(f) => ParseItem(0, s + more) == Fail(f)
            case More => true
  {
    hide ParseItem;
    var st := Reading([], None, s);
    RunFuture(st, more);
    RunRefinesParser(s);
  }

  // ----- Whole sessions

  /** The calls a client makes on a reader. */
  datatype Op = Feed(data: seq<byte>) | GetReply

  /** `redisReaderFeed`: refused once the reader is broken. */
  ghost function FeedState(st: State, data: seq<byte>): State {
    match st
    case Reading(ctxs, ty, unread) => Reading(ctxs, ty, unread + data)
    case Complete(v, unread) => Complete(v, unread + data)
    case Broken(f) => st
  }

  /** The state after `redisReaderGetReply`, and the reply it emits, if any. */
  ghost function GetState(st: State): State
    requires WellFormed(st)
  {
    if Run(st).Complete? then Reading([], None, Run(st).unread) else Run(st)
  }

  ghost function Emitted(st: State): seq<Reply>
    requires WellFormed(st)
  {
    if Run(st).Complete? then [Run(st).reply] else []
  }

  /** The bytes a reader holds that are not part of any item yet. */
  function Unread(st: State): seq<byte> {
    if st.Broken? then [] else st.unread
  }

  /** All bytes offered by a session. */
  function Fed(ops: seq<Op>): seq<byte> {
    if ops == [] then [] else
      var last := ops[|ops| - 1];
      Fed(ops[..|ops| - 1]) + if last.Feed? then last.data else []
  }

  lemma NoCalls()
    ensures Fed([]) == [] && RunSession([]) == Session(Idle, [])
  {
  }

  datatype Session = Session(state: State, replies: seq<Reply>)

  ghost function RunSession(ops: seq<Op>): (r: Session)
    ensures WellFormed(r.state) && !r.state.Complete?
  {
    if ops == [] then Session(Idle, []) else
      var before := RunSession(ops[..|ops| - 1]);
      var op := ops[|ops| - 1];
      RunFuture(before.state, []);
      Session(After(before.state, op), before.replies + Given(before.state, op))
  }

  lemma SessionStep(ops: seq<Op>, i: nat)
    requires i < |ops|
    ensures var before := RunSession(ops[..i]);
            RunSession(ops[..i + 1]) == Session(After(before.state, ops[i]), before.replies + Given(before.state, ops[i]))
  {
    assert ops[..i + 1][..i] == ops[..i];
  }

  /** The state after one call, and the reply it hands out, if any. */
  ghost function After(st: State, op: Op): State
    requires WellFormed(st)
  {
    match op case Feed(data) => FeedState(st, data) case GetReply => GetState(st)
  }

  ghost function Given(st: State, op: Op): seq<Reply>
    requires WellFormed(st)
  {
    match op case Feed(data) => [] case GetReply => Emitted(st)
  }

  /** The transcript of what is still to come in state `st` when `more` arrives. */
  ghost function Remaining(st: State, more: seq<byte>): Transcript
    requires WellFormed(st)
  {
    match Future(st, more)
    case More => Transcript([], None)
    case Fail(f) => Transcript([], Some(f))
    case Done(v, rest) => Prepend([v], Stream(rest))
  }

  /** At every point of every session, the replies emitted so far followed by
      what the state still promises are the transcript of the whole input. */
  lemma {:induction false} SessionTracksStream(ops: seq<Op>, more: seq<byte>)
    ensures var r := RunSession(ops);
            Stream(Fed(ops) + more) == Prepend(r.replies, Remaining(r.state, more))
  {
    if ops == [] {
      assert [] + more == more;
    } else {
      var init, last := ops[..|ops| - 1], ops[|ops| - 1];
      var before := RunSession(init);
      match last
      case Feed(data) =>
        SessionTracksStream(init, data + more);
        assert Fed(ops) + more == Fed(init) + (data + more);
        FeedFuture(before.state, data, more);
        assert before.replies + [] == before.replies;
      case GetReply =>
        SessionTracksStream(init, more);
        assert Fed(ops) == Fed(init);
        GetRemaining(before.state, more);
        PrependTwice(before.replies, Emitted(before.state), Remaining(GetState(before.state), more));
    }
  }

  lemma FeedFuture(st: State, data: seq<byte>, more: seq<byte>)
    requires WellFormed(st)
    ensures Remaining(FeedState(st, data), more) == Remaining(st, data + more)
  {
    hide ParseBody;
    hide ParseItem;
    hide Unwind;
    hide Stream;
    if !st.Broken? {
      assert st.unread + data + more == st.unread + (data + more);
    }
  }

  lemma GetRemaining(st: State, more: seq<byte>)
    requires WellFormed(st)
    ensures WellFormed(GetState(st))
    ensures Remaining(st, more) == Prepend(Emitted(st), Remaining(GetState(st), more))
  {
    RunFuture(st, more);
    PrependNothing(Remaining(st, more));
    PrependNothing(Remaining(GetState(st), more));
  }

  lemma PrependNothing(t: Transcript)
    ensures Prepend([], t) == t
  {
    assert [] + t.replies == t.replies;
  }

  lemma PrependTwice(a: seq<Reply>, b: seq<Reply>, t: Transcript)
    ensures Prepend(a, Prepend(b, t)) == Prepend(a + b, t)
  {
    assert a + (b + t.replies) == a + b + t.replies;
  }

  /** The last call found no complete reply in the bytes at hand, or the reader
      is broken. */
  ghost predicate Drained(ops: seq<Op>) {
    var st := RunSession(ops).state;
    st.Broken? || Blocked(st)
  }

  ghost function Outcome(r: Session): Transcript {
    Transcript(r.replies, if r.state.Broken? then Some(r.state.fault) else None)
  }

  /** However the input is cut into feeds and interleaved with calls for a reply,
      a drained session has emitted the replies of the whole input, and is broken
      exactly when the whole input is. */
  lemma ChunkingInvariance(ops: seq<Op>)
    requires Drained(ops)
    ensures Outcome(RunSession(ops)) == Stream(Fed(ops))
  {
    var r := RunSession(ops);
    SessionTracksStream(ops, []);
    assert Fed(ops) + [] == Fed(ops);
    if r.state.Reading? {
      BlockedFuture(r.state);
    }
    assert r.replies + [] == r.replies;
  }

  /** Two drained sessions that were offered the same bytes end alike. */
  lemma SameBytesSameReplies(ops: seq<Op>, ops': seq<Op>)
    requires Fed(ops) == Fed(ops')
    requires Drained(ops) && Drained(ops')
    ensures Outcome(RunSession(ops)) == Outcome(RunSession(ops'))
  {
    ChunkingInvariance(ops);
    ChunkingInvariance(ops');
  }

  /** Without draining, the emitted replies are the first of the input's. */
  lemma EmittedIsPrefix(ops: seq<Op>)
    ensures RunSession(ops).replies <= Stream(Fed(ops)).replies
  {
    SessionTracksStream(ops, []);
    assert Fed(ops) + [] == Fed(ops);
  }

  /** A call that emits nothing leaves the session drained. */
  lemma EmptyCallDrains(ops: seq<Op>)
    ensures var r := RunSession(ops);
            Emitted(r.state) == [] ==> Drained(ops + [GetReply])
  {
    var r := RunSession(ops);
    RunFuture(r.state, []);
    assert (ops + [GetReply])[..|ops|] == ops;
  }
}

/** The output buffer of a connection (hiredis.c): commands are appended to it and
    partial writes drain it from the front. */
module OutputBuffer {
  import opened Bytes
  import Sds

  /** What a call to write(2) on `n` bytes reports: some bytes were taken, nothing
      could be written for now, or the connection failed. */
  datatype WriteResult = Wrote(count: nat) | TryAgain | WriteError

  /** A connection seen from outside: the bytes the socket took, the bytes still buffered,
      whether an error was seen, and whether the socket ever took bytes from a buffer of
      more than INT_MAX bytes. */
  datatype Wire = Wire(sent: seq<byte>, buffered: seq<byte>, failed: bool, overflowed: bool)

  datatype Event = Append(cmd: seq<byte>) | Write(result: WriteResult)

  /** A write takes no more than it is offered, in a number that fits the `int` it is
      kept in. */
  predicate Possible(w: Wire, e: Event) {
    match e
    case Write(Wrote(n)) => n <= |w.buffered| && n <= INT_MAX
    case _ => true
  }

  /** What `redisBufferWrite` keeps when the socket took `n` bytes. */
  function Drained(buffered: seq<byte>, n: nat): seq<byte> {
    if n == 0 then buffered
    else if n == ToInt32(|buffered|) then []
    else Sds.Ranged(buffered, n, -1)
  }

  function Step(w: Wire, e: Event): Wire
    requires Possible(w, e)
  {
    match e
    case Append(cmd) => w.(buffered := w.buffered + cmd)
    case Write(_) =>
      if w.failed || w.buffered == [] then w
      else
        match e.result
        case Wrote(n) =>
          w.(sent := w.sent + w.buffered[..n], buffered := Drained(w.buffered, n),
             overflowed := w.overflowed || (n > 0 && |w.buffered| > INT_MAX))
        case TryAgain => w
        case WriteError => w.(failed := true)
  }

  /** Every write of the run takes no more bytes than are buffered. */
  ghost predicate Feasible(events: seq<Event>)
    decreases |events|, 0
  {
    events != [] ==>
      var init := events[..|events| - 1];
      Feasible(init) && Possible(After(init), events[|events| - 1])
  }

  ghost function After(events: seq<Event>): Wire
    requires Feasible(events)
    decreases |events|, 1
  {
    if events == [] then Wire([], [], false, false)
    else Step(After(events[..|events| - 1]), events[|events| - 1])
  }

  function Appended(events: seq<Event>): seq<byte> {
    if events == [] then [] else
      var last := events[|events| - 1];
      Appended(events[..|events| - 1]) + if last.Append? then last.cmd else []
  }

  /** What is kept is what was not sent, exactly if the buffer had at most INT_MAX bytes. */
  lemma DrainedExact(buffered: seq<byte>, n: nat)
    requires 0 < n <= |buffered| && n <= INT_MAX
    ensures Drained(buffered, n) == buffered[n..] <==> |buffered| <= INT_MAX
    ensures |buffered| > INT_MAX ==> |Drained(buffered, n)| < |buffered| - n
  {
    hide Sds.Ranged;
    Sds.DropsPrefix(buffered, n);
    Sds.CastSum(|buffered|, 0);
  }

  /** A buffer of between 2^31 and 2^32 bytes is emptied by a write of any size. */
  lemma LargeBufferEmptied(buffered: seq<byte>, n: nat)
    requires INT_MAX < |buffered| < TWO_32 && 0 < n
    ensures Drained(buffered, n) == []
  {
    assert ToInt32(|buffered|) < 0;
  }

  /** How a wire stands to the bytes that were appended to it. */
  ghost predicate Carries(w: Wire, appended: seq<byte>) {
    && (!w.overflowed ==> w.sent + w.buffered == appended)
    && (w.overflowed ==> |w.sent| + |w.buffered| < |appended|)
  }

  lemma StepCarries(w: Wire, appended: seq<byte>, e: Event)
    requires Carries(w, appended) && Possible(w, e)
    ensures Carries(Step(w, e), if e.Append? then appended + e.cmd else appended)
  {
    hide Drained;
    match e
    case Append(cmd) => assert w.sent + (w.buffered + cmd) == w.sent + w.buffered + cmd;
    case Write(_) =>
      if !w.failed && w.buffered != [] && e.result.Wrote? {
        var n := e.result.count;
        assert w.buffered[..n] + w.buffered[n..] == w.buffered;
        if n > 0 {
          DrainedExact(w.buffered, n);
          assert w.sent + w.buffered[..n] + w.buffered[n..] == w.sent + (w.buffered[..n] + w.buffered[n..]);
        } else {
          NothingDrained(w);
        }
      }
  }

  lemma NothingDrained(w: Wire)
    ensures Drained(w.buffered, 0) == w.buffered && w.sent + w.buffered[..0] == w.sent
  {
  }

  /** What was sent followed by what is buffered is what was appended, exactly if the socket
      never took bytes from a buffer of more than INT_MAX bytes; otherwise bytes are lost. */
  lemma {:induction false} Conservation(events: seq<Event>)
    requires Feasible(events)
    ensures After(events).sent + After(events).buffered == Appended(events) <==> !After(events).overflowed
    ensures Carries(After(events), Appended(events))
  {
    hide Step;
    if events != [] {
      var init, last := events[..|events| - 1], events[|events| - 1];
      Conservation(init);
      StepCarries(After(init), Appended(init), last);
      assert Appended(init) + [] == Appended(init);
    }
  }

  // ----- What single writes do

  /** A write moves exactly the bytes that the socket took; one that cannot write changes nothing,
      and a failing one only sets the error, after which nothing is written any more. */
  lemma WriteMoves(w: Wire, n: nat)
    requires !w.failed && 0 < |w.buffered| <= INT_MAX && n <= |w.buffered|
    ensures Step(w, Write(Wrote(n))) == w.(sent := w.sent + w.buffered[..n], buffered := w.buffered[n..])
    ensures Step(w, Write(TryAgain)) == w && Step(w, Write(WriteError)) == w.(failed := true)
    ensures Step(w.(failed := true), Write(Wrote(n))) == w.(failed := true)
    ensures Step(w.(buffered := []), Write(WriteError)) == w.(buffered := [])
  {
    hide Drained;
    if n == 0 {
      NothingDrained(w);
      assert w.buffered[0..] == w.buffered;
    } else {
      DrainedExact(w.buffered, n);
    }
  }

  /** The number of bytes that the socket reports to have taken. */
  ghost function Taken(events: seq<Event>): (n: nat)
    requires Feasible(events)
  {
    if events == [] then 0
    else
      var w, last := After(events[..|events| - 1]), events[|events| - 1];
      Taken(events[..|events| - 1]) +
      if last.Write? && last.result.Wrote? && !w.failed && w.buffered != [] then last.result.count else 0
  }

  /** Every byte that the socket reports to have taken is sent, and no other. */
  lemma {:induction false} SentIsTaken(events: seq<Event>)
    requires Feasible(events)
    ensures |After(events).sent| == Taken(events)
  {
    hide Drained;
    if events != [] {
      SentIsTaken(events[..|events| - 1]);
    }
  }

  /** `redisContext`: its error flag and output buffer. The ghost field records
  what the socket took. */
  class Context {
    var err: bool
    var obuf: seq<byte>
    ghost var sent: seq<byte>
    ghost var overflowed: bool

    constructor ()
      ensures View() == Wire([], [], false, false)
    {
      err, obuf, sent, overflowed := false, [], [], false;
    }

    ghost function View(): Wire
      reads this
    {
      Wire(sent, obuf, err, overflowed)
    }

    /** `__redisAppendCommand`. */
    method AppendCommand(cmd: seq<byte>)
      modifies this
      ensures View() == Step(old(View()), Append(cmd))
    {
      obuf := obuf + cmd;
    }

    /** `redisBufferWrite`; `result` is what write(2) reports if it is called.
        `done` is meaningful when `ok`. */
    method BufferWrite(result: WriteResult) returns (ok: bool, done: bool)
      requires Possible(View(), Write(result))
      modifies this
      ensures View() == Step(old(View()), Write(result))
      ensures ok == !err && (ok ==> (done <==> obuf == []))
    {
      done := false;
      if err {
        return false, done;
      }
      if |obuf| > 0 {
        match result {
          case TryAgain =>
          case WriteError =>
            err := true;
            return false, done;
          case Wrote(nwritten) =>
            sent := sent + obuf[..nwritten];
            overflowed := overflowed || (nwritten > 0 && |obuf| > INT_MAX);
            if nwritten > 0 {
              if nwritten == ToInt32(|obuf|) {
                obuf := [];
              } else {
                obuf := Sds.SdsRange(obuf, nwritten, -1);
              }
            }
        }
      }
      return true, |obuf| == 0;
    }
  }
}

/** The resumable reply reader of read.c, with the reply objects of hiredis.c
    built in place: every new object is stored into a slot of the array object
    that waits for it. The methods are proved against the machine on values. */
module Reader {
  import opened Bytes
  import opened Decimal
  import opened Resp
  import Machine
  import Sds

  // Reply types and reader errors, as in read.h.
  const REPLY_STRING: int := 1
  const REPLY_ARRAY: int := 2
  const REPLY_INTEGER: int := 3
  const REPLY_NIL: int := 4
  const REPLY_STATUS: int := 5
  const REPLY_ERROR: int := 6

  // ----- Reply objects

  /** `redisReply`. Only the slots of an array object change after creation. */
  class ReplyObject {
    const ty: int
    const integer: int
    const str: seq<byte>
    const element: array<ReplyObject?>

    constructor (ty: int, integer: int, str: seq<byte>, elements: nat)
      ensures this.ty == ty && this.integer == integer && this.str == str
      ensures fresh(element) && element.Length == elements
      ensures forall i | 0 <= i < elements :: element[i] == null
    {
      this.ty, this.integer, this.str := ty, integer, str;
      element := new ReplyObject?[elements](_ => null);
    }
  }

  /** The object `o` is the root of a finished tree that denotes `v`; all the
      slot arrays of the tree are among `arrays`. */
  ghost predicate Denotes(o: ReplyObject?, v: Reply, arrays: set<array<ReplyObject?>>)
    reads arrays
    decreases v
  {
    o != null &&
    match v
    case Status(text) => o.ty == REPLY_STATUS && o.str == text
    case Error(text) => o.ty == REPLY_ERROR && o.str == text
    case Bulk(text) => o.ty == REPLY_STRING && o.str == text
    case Integer(n) => o.ty == REPLY_INTEGER && o.integer == n
    case Nil => o.ty == REPLY_NIL
    case Array(vs) =>
      && o.ty == REPLY_ARRAY && o.element in arrays && o.element.Length == |vs|
      && forall i | 0 <= i < |vs| :: Denotes(o.element[i], vs[i], arrays)
  }

  /** The type of an object tells the kinds of replies apart, and an object denotes no more than
      one reply. */
  lemma {:induction false} DenotesOne(o: ReplyObject?, v: Reply, w: Reply, arrays: set<array<ReplyObject?>>)
    requires Denotes(o, v, arrays)
    ensures o.ty == match v case Bulk(_) => 1 case Array(_) => 2 case Integer(_) => 3 case Nil => 4 case Status(_) => 5 case Error(_) => 6
    ensures Denotes(o, w, arrays) ==> v == w
    decreases v
  {
    if v.Array? && Denotes(o, w, arrays) {
      forall i | 0 <= i < |v.elements|
        ensures v.elements[i] == w.elements[i]
      {
        DenotesOne(o.element[i], v.elements[i], w.elements[i], arrays);
      }
      assert v.elements == w.elements;
    }
  }

  lemma {:induction false} DenotesInLarger(o: ReplyObject?, v: Reply, arrays: set<array<ReplyObject?>>,
                                           larger: set<array<ReplyObject?>>)
    requires Denotes(o, v, arrays) && arrays <= larger
    ensures Denotes(o, v, larger)
    decreases v
  {
    if v.Array? {
      forall i | 0 <= i < |v.elements|
        ensures Denotes(o.element[i], v.elements[i], larger)
      {
        DenotesInLarger(o.element[i], v.elements[i], arrays, larger);
      }
    }
  }

  /** The array object `o` under construction: the slots of `c.filled` denote
      finished values, the next slot holds `current`, and the rest are empty. */
  ghost predicate Slots(o: ReplyObject?, c: Machine.Ctx, current: ReplyObject?, arrays: set<array<ReplyObject?>>)
    reads arrays, if o == null then {} else {o.element}
  {
    && o != null && o.ty == REPLY_ARRAY && o.element !in arrays
    && |c.filled| < c.total == o.element.Length
    && (forall j | 0 <= j < |c.filled| :: Denotes(o.element[j], c.filled[j], arrays))
    && o.element[|c.filled|] == current
    && (forall j | |c.filled| < j < c.total :: o.element[j] == null)
  }

  ghost function ElementArrays(objs: seq<ReplyObject>): set<array<ReplyObject?>> {
    set o | o in objs :: o.element
  }

  /** The chain of unfinished arrays: each one sits in the current slot of the
      one before, and `item` in the current slot of the last. */
  ghost predicate Spine(objs: seq<ReplyObject>, ctxs: seq<Machine.Ctx>, item: ReplyObject?,
                        arrays: set<array<ReplyObject?>>)
    reads arrays, ElementArrays(objs)
  {
    && |objs| == |ctxs|
    && (forall k | 0 < k < |objs| :: Slots(objs[k - 1], ctxs[k - 1], objs[k], arrays))
    && (objs != [] ==> Slots(objs[|objs| - 1], ctxs[|ctxs| - 1], item, arrays))
    && (forall k, l | 0 <= k < l < |objs| :: objs[k].element != objs[l].element)
  }

  ghost function Top(ctxs: seq<Machine.Ctx>): Machine.Ctx
    requires ctxs != []
  {
    ctxs[|ctxs| - 1]
  }

  lemma PopArrays(objs: seq<ReplyObject>)
    requires objs != []
    ensures ElementArrays(objs[..|objs| - 1]) + {objs[|objs| - 1].element} == ElementArrays(objs)
  {
  }

  lemma SlotsInLarger(o: ReplyObject?, c: Machine.Ctx, current: ReplyObject?, arrays: set<array<ReplyObject?>>,
                      larger: set<array<ReplyObject?>>)
    requires Slots(o, c, current, arrays) && arrays <= larger && o.element !in larger
    ensures Slots(o, c, current, larger)
  {
    forall j | 0 <= j < |c.filled|
      ensures Denotes(o.element[j], c.filled[j], larger)
    {
      DenotesInLarger(o.element[j], c.filled[j], arrays, larger);
    }
  }

  /** A full array becomes the finished item of the array around it. */
  lemma PopSpine(objs: seq<ReplyObject>, ctxs: seq<Machine.Ctx>, v: Reply, item: ReplyObject,
                 arrays: set<array<ReplyObject?>>)
    requires Spine(objs, ctxs, item, arrays) && Denotes(item, v, arrays)
    requires ctxs != [] && |Top(ctxs).filled| + 1 == Top(ctxs).total
    ensures var n := |ctxs| - 1;
            var arrays' := arrays + {objs[n].element};
            && Spine(objs[..n], ctxs[..n], objs[n], arrays')
            && Denotes(objs[n], Array(Top(ctxs).filled + [v]), arrays')
  {
    var n := |ctxs| - 1;
    var o, c := objs[n], Top(ctxs);
    var arrays' := arrays + {o.element};
    forall k | 0 < k <= n
      ensures Slots(objs[k - 1], ctxs[k - 1], objs[k], arrays')
    {
      SlotsInLarger(objs[k - 1], ctxs[k - 1], objs[k], arrays, arrays');
    }
    var vs := c.filled + [v];
    forall j | 0 <= j < |vs|
      ensures Denotes(o.element[j], vs[j], arrays')
    {
      DenotesInLarger(o.element[j], vs[j], arrays, arrays');
    }
  }

  /** A finished item in a slot that is not the last makes the next slot current. */
  lemma NextSpine(objs: seq<ReplyObject>, ctxs: seq<Machine.Ctx>, v: Reply, item: ReplyObject,
                  arrays: set<array<ReplyObject?>>)
    requires Spine(objs, ctxs, item, arrays) && Denotes(item, v, arrays)
    requires ctxs != [] && |Top(ctxs).filled| + 1 < Top(ctxs).total
    ensures var c := Top(ctxs);
            Spine(objs, ctxs[..|ctxs| - 1] + [c.(filled := c.filled + [v])], null, arrays)
  {
    var n := |ctxs| - 1;
  }

  /** A new array object becomes the innermost unfinished one. */
  lemma PushSpine(objs: seq<ReplyObject>, ctxs: seq<Machine.Ctx>, o: ReplyObject, n: nat,
                  arrays: set<array<ReplyObject?>>)
    requires Spine(objs, ctxs, o, arrays) && Slots(o, Machine.Ctx(n, []), null, arrays)
    requires o.element !in ElementArrays(objs)
    ensures Spine(objs + [o], ctxs + [Machine.Ctx(n, [])], null, arrays)
    ensures ElementArrays(objs + [o]) == ElementArrays(objs) + {o.element}
  {
    var objs', ctxs' := objs + [o], ctxs + [Machine.Ctx(n, [])];
    forall k | 0 < k < |objs'|
      ensures Slots(objs'[k - 1], ctxs'[k - 1], objs'[k], arrays)
    {
      if k < |objs| {
        assert Slots(objs[k - 1], ctxs[k - 1], objs[k], arrays);
      }
    }
    forall k | 0 <= k < |objs|
      ensures objs[k].element != o.element
    {
      assert objs[k].element in ElementArrays(objs);
    }
  }

  lemma SpineInLarger(objs: seq<ReplyObject>, ctxs: seq<Machine.Ctx>, item: ReplyObject?,
                      arrays: set<array<ReplyObject?>>, larger: set<array<ReplyObject?>>)
    requires Spine(objs, ctxs, item, arrays) && arrays <= larger
    requires forall o | o in objs :: o.element !in larger - arrays
    ensures Spine(objs, ctxs, item, larger)
  {
    forall k | 0 < k < |objs|
      ensures Slots(objs[k - 1], ctxs[k - 1], objs[k], larger)
    {
      assert Slots(objs[k - 1], ctxs[k - 1], objs[k], arrays);
      SlotsInLarger(objs[k - 1], ctxs[k - 1], objs[k], arrays, larger);
    }
    if objs != [] {
      SlotsInLarger(objs[|objs| - 1], Top(ctxs), item, arrays, larger);
    }
  }

  // ----- Read tasks and the creation of objects

  /** `redisReadTask`: `ty` is -1 until the type byte is read; `parent` is the
      stack index of the parent task, or -1. */
  datatype Task = Task(ty: int, elements: int, idx: int, obj: ReplyObject?, parent: int)

  const FreshTask: Task := Task(-1, -1, -1, null, -1)

  /** `parent` waits for an object at index `idx`: it is the innermost unfinished
      array, or null for the root. */
  ghost predicate Waits(parent: ReplyObject?, idx: int, objs: seq<ReplyObject>, ctxs: seq<Machine.Ctx>,
                        arrays: set<array<ReplyObject?>>)
    reads arrays, ElementArrays(objs)
  {
    && Spine(objs, ctxs, null, arrays)
    && (objs == [] ==> parent == null)
    && (objs != [] ==> parent == objs[|objs| - 1] && idx == |Top(ctxs).filled|)
  }

  /** What the four creators end with: storing the new object into its parent. */
  method Attach(task: Task, parent: ReplyObject?, r: ReplyObject, ghost objs: seq<ReplyObject>,
                ghost ctxs: seq<Machine.Ctx>, ghost arrays: set<array<ReplyObject?>>)
    requires Waits(parent, task.idx, objs, ctxs, arrays)
    modifies if parent == null then {} else {parent.element}
    ensures Spine(objs, ctxs, r, arrays)
  {
    if parent != null {
      assert Slots(parent, Top(ctxs), null, arrays);
      assert parent.ty == REPLY_ARRAY;
      parent.element[task.idx] := r;
      forall k | 0 < k < |objs|
        ensures Slots(objs[k - 1], ctxs[k - 1], objs[k], arrays)
      {
        assert objs[k - 1].element != parent.element;
        assert old(Slots(objs[k - 1], ctxs[k - 1], objs[k], arrays));
      }
    }
  }

  /** `createStringObject`. */
  method CreateStringObject(task: Task, parent: ReplyObject?, str: seq<byte>, ghost objs: seq<ReplyObject>,
                            ghost ctxs: seq<Machine.Ctx>, ghost arrays: set<array<ReplyObject?>>)
      returns (r: ReplyObject)
    requires task.ty == REPLY_ERROR || task.ty == REPLY_STATUS || task.ty == REPLY_STRING
    requires Waits(parent, task.idx, objs, ctxs, arrays)
    modifies if parent == null then {} else {parent.element}
    ensures Spine(objs, ctxs, r, arrays)
    ensures Denotes(r, StringReply(task.ty, str), arrays)
  {
    r := new ReplyObject(task.ty, 0, str, 0);
    Attach(task, parent, r, objs, ctxs, arrays);
  }

  function StringReply(ty: int, str: seq<byte>): Reply {
    if ty == REPLY_STATUS then Status(str) else if ty == REPLY_ERROR then Error(str) else Bulk(str)
  }

  /** `createArrayObject`: a finished object if it is empty, and otherwise one
      whose slots are all to be filled. */
  method CreateArrayObject(task: Task, parent: ReplyObject?, elements: nat, ghost objs: seq<ReplyObject>,
                           ghost ctxs: seq<Machine.Ctx>, ghost arrays: set<array<ReplyObject?>>)
      returns (r: ReplyObject)
    requires Waits(parent, task.idx, objs, ctxs, arrays)
    modifies if parent == null then {} else {parent.element}
    ensures Spine(objs, ctxs, r, arrays) && fresh(r.element) && r.element !in ElementArrays(objs)
    ensures elements == 0 ==>
              Spine(objs, ctxs, r, arrays + {r.element}) && Denotes(r, Array([]), arrays + {r.element})
    ensures elements > 0 ==> Slots(r, Machine.Ctx(elements, []), null, arrays)
  {
    r := new ReplyObject(REPLY_ARRAY, 0, [], elements);
    Attach(task, parent, r, objs, ctxs, arrays);
    assert forall o | o in objs :: o.element in ElementArrays(objs);
    SpineInLarger(objs, ctxs, r, arrays, arrays + {r.element});
  }

  /** `createIntegerObject`. */
  method CreateIntegerObject(task: Task, parent: ReplyObject?, value: int, ghost objs: seq<ReplyObject>,
                             ghost ctxs: seq<Machine.Ctx>, ghost arrays: set<array<ReplyObject?>>)
      returns (r: ReplyObject)
    requires Waits(parent, task.idx, objs, ctxs, arrays)
    modifies if parent == null then {} else {parent.element}
    ensures Spine(objs, ctxs, r, arrays)
    ensures Denotes(r, Integer(value), arrays)
  {
    r := new ReplyObject(REPLY_INTEGER, value, [], 0);
    Attach(task, parent, r, objs, ctxs, arrays);
  }

  /** `createNilObject`. */
  method CreateNilObject(task: Task, parent: ReplyObject?, ghost objs: seq<ReplyObject>,
                         ghost ctxs: seq<Machine.Ctx>, ghost arrays: set<array<ReplyObject?>>)
      returns (r: ReplyObject)
    requires Waits(parent, task.idx, objs, ctxs, arrays)
    modifies if parent == null then {} else {parent.element}
    ensures Spine(objs, ctxs, r, arrays)
    ensures Denotes(r, Nil, arrays)
  {
    r := new ReplyObject(REPLY_NIL, 0, [], 0);
    Attach(task, parent, r, objs, ctxs, arrays);
  }

  // ----- Lines

  /** `seekNewline`: finds the first CR LF, except where it starts at or past the `int`
      that the length was truncated to. */
  method SeekNewline(s: seq<byte>) returns (r: Option<nat>)
    ensures r.Some? ==> r == FirstCrlf(s)
    ensures r.None? <==> FirstCrlf(s).None? || FirstCrlf(s).value >= ToInt32(|s| - 1)
  {
    var pos := 0;
    var len := ToInt32(|s| - 1);
    while pos < len
      invariant pos == 0 || 0 < pos <= len
      invariant forall i | 0 <= i < pos :: !(s[i] == CR && s[i + 1] == LF)
    {
      while pos < len && s[pos] != CR
        invariant 0 <= pos <= len
        invariant forall i | 0 <= i < pos :: !(s[i] == CR && s[i + 1] == LF)
      {
        pos := pos + 1;
      }
      if pos == len {
        return None;
      } else if s[pos + 1] == LF {
        return Some(pos);
      } else {
        pos := pos + 1;
      }
    }
    return None;
  }

  /** In up to INT_MAX + 1 bytes every CR LF starts below the truncated length, so the
      search is right. */
  lemma SeekLine(s: seq<byte>)
    requires |s| <= INT_MAX + 1
    ensures FirstCrlf(s).Some? ==> FirstCrlf(s).value < ToInt32(|s| - 1)
    ensures TakeLine(s).Done? <==> FirstCrlf(s).Some?
    ensures FirstCrlf(s).Some? ==> TakeLine(s) == Done(s[..FirstCrlf(s).value], s[FirstCrlf(s).value + 2..])
  {
  }

  /** From INT_MAX + 2 up to 2^32 bytes nothing is found, not even a line at the very front. */
  lemma SeekFindsNothing(s: seq<byte>)
    requires INT_MAX + 2 <= |s| <= TWO_32
    ensures FirstCrlf(s).Some? ==> FirstCrlf(s).value >= ToInt32(|s| - 1)
  {
    assert ToInt32(|s| - 1) < 0;
  }

  /** The tasks of the unfinished arrays `ctxs`, built in the objects `objs`, and
      of the item inside them. */
  ghost predicate Tasks(ts: seq<Task>, ctxs: seq<Machine.Ctx>, objs: seq<ReplyObject>) {
    && |ctxs| == |objs| < |ts|
    && ts[0].parent == -1
    && (forall k | 0 <= k < |ctxs| ::
          && ts[k].ty == REPLY_ARRAY && ts[k].obj == objs[k]
          && |ctxs[k].filled| < ctxs[k].total == ts[k].elements)
    && (forall k | 0 < k <= |ctxs| :: ts[k].idx == |ctxs[k - 1].filled| && ts[k].parent == k - 1)
  }

  lemma TasksPop(ts: seq<Task>, ctxs: seq<Machine.Ctx>, objs: seq<ReplyObject>)
    requires Tasks(ts, ctxs, objs) && ctxs != []
    ensures Tasks(ts, ctxs[..|ctxs| - 1], objs[..|ctxs| - 1])
    ensures var n := |ctxs| - 1;
            && ts[n].ty == REPLY_ARRAY && ts[n].elements == Top(ctxs).total
            && ts[n + 1].idx == |Top(ctxs).filled| < Top(ctxs).total
  {
  }

  lemma TasksNext(ts: seq<Task>, ctxs: seq<Machine.Ctx>, objs: seq<ReplyObject>, v: Reply)
    requires Tasks(ts, ctxs, objs) && ctxs != []
    requires |Top(ctxs).filled| + 1 < Top(ctxs).total
    ensures var n := |ctxs|;
            var c := Top(ctxs);
            var ctxs' := ctxs[..n - 1] + [c.(filled := c.filled + [v])];
            Tasks(ts[n := ts[n].(ty := -1, elements := -1, idx := ts[n].idx + 1)], ctxs', objs)
  {
  }

  lemma TasksRetype(ts: seq<Task>, ctxs: seq<Machine.Ctx>, objs: seq<ReplyObject>, ty: int)
    requires Tasks(ts, ctxs, objs)
    ensures Tasks(ts[|ctxs| := ts[|ctxs|].(ty := ty)], ctxs, objs)
  {
  }

  lemma TasksPush(ts: seq<Task>, ctxs: seq<Machine.Ctx>, objs: seq<ReplyObject>, o: ReplyObject, n: nat)
    requires Tasks(ts, ctxs, objs) && |ctxs| + 1 < |ts| && n > 0 && ts[|ctxs|].ty == REPLY_ARRAY
    ensures var k := |ctxs|;
            Tasks(ts[k := ts[k].(elements := n, obj := o)][k + 1 := Task(-1, -1, 0, null, k)],
                  ctxs + [Machine.Ctx(n, [])], objs + [o])
  {
  }

  // ----- The reader

  function TypeCode(b: byte): int
    requires IsTypeByte(b)
  {
    if b == DASH then REPLY_ERROR
    else if b == PLUS then REPLY_STATUS
    else if b == COLON then REPLY_INTEGER
    else if b == DOLLAR then REPLY_STRING
    else REPLY_ARRAY
  }

  /** The value of a line item. */
  ghost function LineValue(ty: byte, line: seq<byte>): Option<Reply>
    requires IsTypeByte(ty)
  {
    if ty != COLON then Some(StringReply(TypeCode(ty), line))
    else match ParseInt(line) case None => None case Some(n) => Some(Integer(n))
  }

  lemma LineCases(ctxs: seq<Machine.Ctx>, ty: byte, s: seq<byte>)
    requires |ctxs| <= MAX_LEVEL && IsTypeByte(ty) && ty != DOLLAR && ty != STAR
    ensures ParseHead(|ctxs|, ty, s).Done? <==> TakeLine(s).Done? && LineValue(ty, TakeLine(s).value).Some?
    ensures Machine.ProcessTyped(ctxs, ty, s) ==
            if !TakeLine(s).Done? then Machine.Reading(ctxs, Some(ty), s)
            else if LineValue(ty, TakeLine(s).value).None? then Machine.Broken(BadInteger)
            else Machine.Advance(ctxs, LineValue(ty, TakeLine(s).value).value, TakeLine(s).rest)
  {
    hide ParseInt;
    hide Machine.Advance;
  }

  /** What `processBulkItem` decides from its length line. */
  lemma BulkCases(ctxs: seq<Machine.Ctx>, s: seq<byte>)
    requires |ctxs| <= MAX_LEVEL
    ensures !TakeLine(s).Done? ==> BulkBlocked(ctxs, s)
    ensures TakeLine(s).Done? ==>
              var n, rest := ParseInt(TakeLine(s).value), TakeLine(s).rest;
              if n.None? then BulkFails(ctxs, s, BadBulkLength)
              else if n.value < -1 then BulkFails(ctxs, s, BulkLengthOutOfRange)
              else if n.value == -1 then BulkYields(ctxs, s, Nil, rest)
              else if n.value + 2 > |rest| then BulkBlocked(ctxs, s)
              else BulkYields(ctxs, s, Bulk(rest[..n.value]), rest[n.value + 2..])
  {
    hide Print;
    hide Machine.Advance;
  }

  ghost predicate BulkBlocked(ctxs: seq<Machine.Ctx>, s: seq<byte>)
    requires |ctxs| <= MAX_LEVEL
  {
    Machine.ProcessTyped(ctxs, DOLLAR, s) == Machine.Reading(ctxs, Some(DOLLAR), s)
    && !ParseHead(|ctxs|, DOLLAR, s).Done?
  }

  ghost predicate BulkFails(ctxs: seq<Machine.Ctx>, s: seq<byte>, f: Fault)
    requires |ctxs| <= MAX_LEVEL
  {
    Machine.ProcessTyped(ctxs, DOLLAR, s) == Machine.Broken(f) && !ParseHead(|ctxs|, DOLLAR, s).Done?
  }

  ghost predicate BulkYields(ctxs: seq<Machine.Ctx>, s: seq<byte>, v: Reply, rest: seq<byte>)
    requires |ctxs| <= MAX_LEVEL
  {
    Machine.ProcessTyped(ctxs, DOLLAR, s) == Machine.Advance(ctxs, v, rest) && ParseHead(|ctxs|, DOLLAR, s).Done?
  }

  lemma ArrayCases(ctxs: seq<Machine.Ctx>, s: seq<byte>)
    requires |ctxs| < MAX_LEVEL
    ensures TakeLine(s).Done? ==>
              var n, rest := ParseInt(TakeLine(s).value), TakeLine(s).rest;
              && (n.None? ==> Machine.ProcessTyped(ctxs, STAR, s) == Machine.Broken(BadMultiBulkLength))
              && (n.Some? && !(-1 <= n.value <= INT_MAX) ==>
                    Machine.ProcessTyped(ctxs, STAR, s) == Machine.Broken(MultiBulkLengthOutOfRange))
              && (n == Some(-1) ==> Machine.ProcessTyped(ctxs, STAR, s) == Machine.Advance(ctxs, Nil, rest))
              && (n == Some(0) ==> Machine.ProcessTyped(ctxs, STAR, s) == Machine.Advance(ctxs, Array([]), rest))
              && (n.Some? && 0 < n.value <= INT_MAX ==>
                    Machine.ProcessTyped(ctxs, STAR, s) == Machine.Reading(ctxs + [Machine.Ctx(n.value, [])], None, rest))
              && (ParseHead(|ctxs|, STAR, s).Done? <==> n.Some? && -1 <= n.value <= INT_MAX)
    ensures !TakeLine(s).Done? ==>
              && Machine.ProcessTyped(ctxs, STAR, s) == Machine.Reading(ctxs, Some(STAR), s)
              && !ParseHead(|ctxs|, STAR, s).Done?
  {
    hide Print;
    hide Machine.Advance;
  }

  /** Where a bulk item ends, in the 64-bit arithmetic of `processBulkItem`. */
  function BulkEnd(pos: nat, line: nat, len: int): (end: int)
    requires pos + line <= INT_MAX && 0 <= len <= LLONG_MAX
    ensures end == pos + line + 2 + len + 2
  {
    ToUInt64(pos + ToUInt64(line + 2 + ToInt64(len + 2)))
  }

  /** `redisReader`. The ghost fields name the value-level state it is in, the
      unfinished array objects on the stack, outermost first, and the slot
      arrays of the finished parts below them. */
  class Reader {
    var err: Option<Fault>
    var buf: seq<byte>
    var pos: nat
    var len: nat
    var maxbuf: nat
    const rstack: array<Task>
    var ridx: int
    var reply: ReplyObject?

    ghost var st: Machine.State
    ghost var repr: set<object>
    ghost var spine: seq<ReplyObject>
    ghost var arrays: set<array<ReplyObject?>>

    ghost predicate Shape()
      reads this
    {
      && this in repr && rstack in repr && arrays <= repr && ElementArrays(spine) <= repr
      && rstack.Length == 9 && pos <= len == |buf| <= INT_MAX && -1 <= ridx <= 8
    }

    /** The task stack mirrors the unfinished arrays `ctxs`. */
    ghost predicate Stack(ctxs: seq<Machine.Ctx>)
      reads this, rstack
    {
      && rstack.Length == 9 && ridx == |ctxs| == |spine| <= 8
      && Tasks(rstack[..], ctxs, spine)
      && (ridx > 0 ==> reply == spine[0])
    }

    ghost predicate Valid()
      reads this, repr
    {
      && Shape() && Machine.WellFormed(st)
      && (st.Broken? ==> err == Some(st.fault) && ridx == -1 && buf == [] && spine == [])
      && (!st.Broken? ==> err == None && buf[pos..] == st.unread)
      && (st.Complete? ==> ridx == -1 && reply != null && Denotes(reply, st.reply, arrays) && spine == [])
      && (st.Reading? && ridx == -1 ==>
            st.ctxs == [] && st.ty == None && spine == [] && arrays == {} && reply == null)
      && (st.Reading? && ridx >= 0 ==> InItem(st.ctxs, st.ty))
    }

    /** Between two items of a reply. */
    ghost predicate Busy()
      reads this, repr
    {
      Valid() && (st.Reading? ==> ridx >= 0)
    }

    /** An item of type `ty`, or of unknown type, is being read. */
    ghost predicate InItem(ctxs: seq<Machine.Ctx>, ty: Option<byte>)
      reads this, rstack, arrays, ElementArrays(spine)
      requires ty.Some? ==> IsTypeByte(ty.value)
    {
      && Stack(ctxs) && Spine(spine, ctxs, null, arrays)
      && (ridx == 0 ==> reply == null)
      && rstack[ridx].ty == if ty.None? then -1 else TypeCode(ty.value)
    }

    /** `redisReaderCreateWithFunctions`, with the default object functions. */
    constructor ()
      ensures Valid() && fresh(repr) && st == Machine.Idle && pos == 0
    {
      err, buf, pos, len, maxbuf := None, [], 0, 0, 1024 * 16;
      rstack := new Task[9](_ => FreshTask);
      ridx, reply := -1, null;
      st, spine, arrays := Machine.Idle, [], {};
      repr := {this, rstack};
    }

    /** `__redisReaderSetError`. */
    method SetError(fault: Fault)
      requires Shape()
      modifies this
      ensures Valid() && st == Machine.Broken(fault) && repr == old(repr)
    {
      reply := null;
      buf, pos, len := [], 0, 0;
      ridx := -1;
      err := Some(fault);
      st, spine, arrays := Machine.Broken(fault), [], {};
    }

    /** `readLine`. */
    method ReadLine() returns (line: Option<seq<byte>>)
      requires Shape()
      modifies this`pos
      ensures Shape()
      ensures match TakeLine(old(buf[pos..]))
              case Done(l, rest) => line == Some(l) && buf[pos..] == rest
              case _ => line == None && pos == old(pos)
    {
      var p := buf[pos..];
      SeekLine(p);
      var s := SeekNewline(p);
      if s.None? {
        return None;
      }
      pos := pos + s.value + 2;
      return Some(p[..s.value]);
    }

    /** An item that denotes `v` sits in the current slot, or is the root. */
    ghost predicate Placed(ctxs: seq<Machine.Ctx>, v: Reply, item: ReplyObject)
      reads this, rstack, arrays, ElementArrays(spine)
    {
      Stack(ctxs) && Spine(spine, ctxs, item, arrays) && Denotes(item, v, arrays)
    }

    /** The innermost array is full: it becomes the finished item. */
    method PopTask(ghost ctxs: seq<Machine.Ctx>, ghost v: Reply, ghost item: ReplyObject)
      requires Shape() && Placed(ctxs, v, item)
      requires ctxs != [] && |Top(ctxs).filled| + 1 == Top(ctxs).total
      modifies this`ridx, this`spine, this`arrays
      ensures Shape() && ridx == old(ridx) - 1
      ensures Placed(ctxs[..|ctxs| - 1], Array(Top(ctxs).filled + [v]), old(spine)[|ctxs| - 1])
      ensures spine == old(spine)[..|ctxs| - 1]
    {
      hide Spine;
      hide Denotes;
      hide Tasks;
      hide ElementArrays;
      ghost var n := |ctxs| - 1;
      PopSpine(spine, ctxs, v, item, arrays);
      PopArrays(spine);
      TasksPop(rstack[..], ctxs, spine);
      ridx := ridx - 1;
      arrays := arrays + {spine[n].element};
      spine := spine[..n];
    }

    /** The innermost array has a slot left: the task is reset for the next item. */
    method NextTask(ghost ctxs: seq<Machine.Ctx>, ghost v: Reply, ghost item: ReplyObject)
      requires Shape() && Placed(ctxs, v, item) && err == None
      requires ctxs != [] && |Top(ctxs).filled| + 1 < Top(ctxs).total
      requires Machine.WellFormed(Machine.Advance(ctxs, v, buf[pos..]))
      modifies this`st, rstack
      ensures Busy() && st == Machine.Advance(ctxs, v, buf[pos..])
    {
      hide Spine;
      hide Denotes;
      hide Tasks;
      hide ElementArrays;
      hide Machine.WellFormed;
      NextSpine(spine, ctxs, v, item, arrays);
      TasksNext(rstack[..], ctxs, spine, v);
      ghost var tasks := rstack[..];
      var cur := rstack[ridx];
      // the next element may be of another type
      rstack[ridx] := cur.(ty := -1, elements := -1, idx := cur.idx + 1);
      assert rstack[..] == tasks[ridx := rstack[ridx]];
      st := Machine.Advance(ctxs, v, buf[pos..]);
    }

    /** `moveToNextTask`: pops the arrays whose last slot was just filled. */
    method MoveToNextTask(ghost ctxs: seq<Machine.Ctx>, ghost v: Reply, ghost item: ReplyObject)
      requires Shape() && err == None && Machine.WellFormed(Machine.Reading(ctxs, None, buf[pos..]))
      requires Placed(ctxs, v, item)
      requires reply == if ctxs == [] then item else spine[0]
      modifies this`ridx, this`spine, this`arrays, this`st, rstack
      ensures Busy() && st == Machine.Advance(ctxs, v, buf[pos..])
    {
      hide Spine;
      hide Denotes;
      hide ElementArrays;
      hide Tasks;
      hide Machine.Advance;
      hide Machine.WellFormed;
      ghost var inner, w, cur := ctxs, v, item;
      ghost var unread := buf[pos..];
      Machine.AdvanceKeeps(ctxs, v, unread);
      while ridx >= 0
        invariant 0 <= ridx <= 8 && Shape() && Placed(inner, w, cur)
        invariant reply == if inner == [] then cur else spine[0]
        invariant Machine.Advance(inner, w, unread) == Machine.Advance(ctxs, v, unread)
        decreases ridx
      {
        Machine.AdvanceCases(inner, w, unread);
        // the item was the root of the reply
        if ridx == 0 {
          ridx := ridx - 1;
          st := Machine.Complete(w, unread);
          return;
        }
        TasksPop(rstack[..], inner, spine);
        assert rstack[ridx - 1].ty == REPLY_ARRAY;
        if rstack[ridx].idx == rstack[ridx - 1].elements - 1 {
          ghost var outer := spine[|inner| - 1];
          PopTask(inner, w, cur);
          inner, w, cur := inner[..|inner| - 1], Array(Top(inner).filled + [w]), outer;
        } else {
          assert rstack[ridx].idx < rstack[ridx - 1].elements;
          NextTask(inner, w, cur);
          return;
        }
      }
    }

    /** What every item ends with: it is the reply if it is the root, and the
        stack moves on. */
    method FinishItem(ghost ctxs: seq<Machine.Ctx>, ghost v: Reply, obj: ReplyObject,
                      ghost finished: set<array<ReplyObject?>>)
      requires Shape() && err == None && Machine.WellFormed(Machine.Reading(ctxs, None, buf[pos..]))
      requires Stack(ctxs) && Spine(spine, ctxs, obj, finished) && Denotes(obj, v, finished) && finished <= repr
      modifies this`reply, this`ridx, this`spine, this`arrays, this`st, rstack
      ensures Busy() && st == Machine.Advance(ctxs, v, buf[pos..])
    {
      hide Spine;
      hide Denotes;
      hide Tasks;
      hide Machine.Advance;
      hide Machine.WellFormed;
      hide ElementArrays;
      assert forall o: object | o in ElementArrays(spine) :: o != this;
      arrays := finished;
      if ridx == 0 {
        reply := obj;
      }
      MoveToNextTask(ctxs, v, obj);
    }

    function ParentObject(task: Task): ReplyObject?
      requires task.parent < rstack.Length
      reads this, rstack
    {
      if task.parent < 0 then null else rstack[task.parent].obj
    }

    /** The current task knows the object its item is stored into. */
    lemma ParentWaits(ctxs: seq<Machine.Ctx>)
      requires Stack(ctxs) && Spine(spine, ctxs, null, arrays)
      ensures rstack[ridx].parent < rstack.Length
      ensures Waits(ParentObject(rstack[ridx]), rstack[ridx].idx, spine, ctxs, arrays)
    {
      if ctxs != [] {
        TasksPop(rstack[..], ctxs, spine);
      }
    }

    /** A typed item is waiting to be read. */
    ghost predicate Pending()
      reads this, repr
    {
      Valid() && st.Reading? && ridx >= 0 && st.ty.Some?
    }

    ghost function Target(): Machine.State
      requires Pending()
      reads this, repr
    {
      Machine.ProcessTyped(st.ctxs, st.ty.value, st.unread)
    }

    ghost predicate Progress()
      requires Pending()
      reads this, repr
    {
      ParseHead(|st.ctxs|, st.ty.value, st.unread).Done?
    }

    /** `processLineItem`. */
    method ProcessLineItem() returns (ok: bool)
      requires Pending() && st.ty.value != DOLLAR && st.ty.value != STAR
      modifies repr
      ensures Busy() && st == old(Target()) && ok == old(Progress())
      ensures fresh(repr - old(repr))
      ensures |buf| <= old(|buf|)
    {
      hide Spine;
      hide Denotes;
      hide Tasks;
      hide Slots;
      hide Machine.Advance;
      hide ParseInt;
      hide Print;
      hide Machine.ProcessTyped;
      hide ParseHead;
      ghost var ctxs := st.ctxs;
      ParentWaits(ctxs);
      LineCases(ctxs, st.ty.value, st.unread);
      var cur := rstack[ridx];
      var line := ReadLine();
      if line.None? {
        return false;
      }
      var obj: ReplyObject;
      ghost var v: Reply;
      if cur.ty == REPLY_INTEGER {
        var n := String2ll(line.value);
        if n.None? {
          SetError(BadInteger);
          return false;
        }
        obj := CreateIntegerObject(cur, ParentObject(cur), n.value, spine, ctxs, arrays);
        v := Integer(n.value);
      } else {
        obj := CreateStringObject(cur, ParentObject(cur), line.value, spine, ctxs, arrays);
        v := StringReply(cur.ty, line.value);
      }
      FinishItem(ctxs, v, obj, arrays);
      return true;
    }

    /** `processBulkItem`. */
    method ProcessBulkItem() returns (ok: bool)
      requires Pending() && st.ty.value == DOLLAR
      modifies repr
      ensures Busy() && st == old(Target()) && ok == old(Progress())
      ensures fresh(repr - old(repr))
      ensures |buf| <= old(|buf|)
    {
      hide Spine;
      hide Denotes;
      hide Tasks;
      hide Slots;
      hide Machine.Advance;
      hide ParseInt;
      hide Print;
      hide FirstCrlf;
      hide TakeLine;
      hide Machine.ProcessTyped;
      hide ParseHead;
      ghost var ctxs := st.ctxs;
      BulkCases(ctxs, st.unread);
      var p := buf[pos..];
      var s := SeekNewline(p);
      SeekLine(p);
      if s.None? {
        return false;
      }
      var bytelen := s.value + 2;
      var len := String2ll(p[..s.value]);
      if len.None? {
        SetError(BadBulkLength);
        return false;
      }
      if len.value < -1 {
        SetError(BulkLengthOutOfRange);
        return false;
      }
      if len.value == -1 {
        TakeBulk(bytelen, None);
        return true;
      }
      // the rest of the item is still to come
      if BulkEnd(pos, s.value, len.value) > this.len {
        return false;
      }
      var str := p[bytelen..][..len.value];
      assert p[bytelen..][len.value + 2..] == p[bytelen + len.value + 2..];
      TakeBulk(bytelen + len.value + 2, Some(str));
      return true;
    }

    /** Creates a nil or string object from the next `bytelen` bytes. */
    method TakeBulk(bytelen: nat, str: Option<seq<byte>>)
      requires Pending() && st.ty.value == DOLLAR && bytelen <= |st.unread|
      requires BulkYields(st.ctxs, st.unread, if str.None? then Nil else Bulk(str.value), st.unread[bytelen..])
      modifies repr
      ensures Busy() && st == old(Target()) && old(Progress())
      ensures fresh(repr - old(repr))
      ensures |buf| <= old(|buf|)
    {
      hide Spine;
      hide Denotes;
      hide Tasks;
      hide Slots;
      hide Machine.Advance;
      hide Machine.ProcessTyped;
      hide ParseHead;
      ghost var ctxs := st.ctxs;
      ParentWaits(ctxs);
      var cur := rstack[ridx];
      assert buf[pos + bytelen..] == buf[pos..][bytelen..];
      pos := pos + bytelen;
      if str.None? {
        // a length of -1
        var obj := CreateNilObject(cur, ParentObject(cur), spine, ctxs, arrays);
        FinishItem(ctxs, Nil, obj, arrays);
      } else {
        var obj := CreateStringObject(cur, ParentObject(cur), str.value, spine, ctxs, arrays);
        FinishItem(ctxs, Bulk(str.value), obj, arrays);
      }
    }

    /** Pushes a task for the first element of a new array. */
    method OpenArray(ghost ctxs: seq<Machine.Ctx>, obj: ReplyObject, elements: nat)
      requires Shape() && err == None && Machine.WellFormed(Machine.Reading(ctxs, None, buf[pos..]))
      requires Stack(ctxs) && Spine(spine, ctxs, obj, arrays) && 0 < elements <= INT_MAX
      requires Slots(obj, Machine.Ctx(elements, []), null, arrays) && obj.element !in ElementArrays(spine) && obj.element in repr
      requires rstack[ridx].ty == REPLY_ARRAY && ridx < 8
      modifies this`reply, this`ridx, this`spine, this`st, rstack
      ensures Busy() && st == Machine.Reading(ctxs + [Machine.Ctx(elements, [])], None, buf[pos..])
    {
      hide Spine;
      hide Denotes;
      hide Tasks;
      hide ElementArrays;
      var root := ridx == 0;
      PushSpine(spine, ctxs, obj, elements, arrays);
      TasksPush(rstack[..], ctxs, spine, obj, elements);
      ghost var tasks := rstack[..];
      var cur := ridx;
      rstack[cur] := rstack[cur].(elements := elements, obj := obj);
      ridx := ridx + 1;
      rstack[ridx] := Task(-1, -1, 0, null, cur);
      assert rstack[..] == tasks[cur := rstack[cur]][cur + 1 := rstack[cur + 1]];
      spine := spine + [obj];
      if root {
        reply := obj;
      }
      st := Machine.Reading(ctxs + [Machine.Ctx(elements, [])], None, buf[pos..]);
    }

    /** `processMultiBulkItem`. */
    method ProcessMultiBulkItem() returns (ok: bool)
      requires Pending() && st.ty.value == STAR
      modifies repr
      ensures Busy() && st == old(Target()) && ok == old(Progress())
      ensures fresh(repr - old(repr))
      ensures |buf| <= old(|buf|)
    {
      hide Spine;
      hide Denotes;
      hide Tasks;
      hide Slots;
      hide Machine.Advance;
      hide ParseInt;
      hide Print;
      ghost var ctxs := st.ctxs;
      // all nine tasks are in use
      if ridx == 8 {
        assert Target() == Machine.Broken(TooDeep) && !Progress();
        SetError(TooDeep);
        return false;
      }
      hide Machine.ProcessTyped;
      hide ParseHead;
      ArrayCases(ctxs, st.unread);
      var line := ReadLine();
      if line.None? {
        return false;
      }
      var elements := String2ll(line.value);
      if elements.None? {
        SetError(BadMultiBulkLength);
        return false;
      }
      if elements.value < -1 || elements.value > INT_MAX {
        SetError(MultiBulkLengthOutOfRange);
        return false;
      }
      TakeArray(ctxs, elements.value);
      return true;
    }

    /** Creates a nil object, or an array object and a task for its first element. */
    method TakeArray(ghost ctxs: seq<Machine.Ctx>, elements: int)
      requires Shape() && err == None && Machine.WellFormed(Machine.Reading(ctxs, None, buf[pos..]))
      requires Stack(ctxs) && Spine(spine, ctxs, null, arrays)
      requires rstack[ridx].ty == REPLY_ARRAY && ridx < 8 && -1 <= elements <= INT_MAX
      modifies this`reply, this`ridx, this`spine, this`arrays, this`st, this`repr, rstack, ElementArrays(spine)
      ensures Busy() && fresh(repr - old(repr))
      ensures st == if elements == -1 then Machine.Advance(ctxs, Nil, buf[pos..])
                    else if elements == 0 then Machine.Advance(ctxs, Array([]), buf[pos..])
                    else Machine.Reading(ctxs + [Machine.Ctx(elements, [])], None, buf[pos..])
    {
      hide Spine;
      hide Denotes;
      hide Tasks;
      hide Slots;
      hide Machine.Advance;
      ParentWaits(ctxs);
      var cur := rstack[ridx];
      if elements == -1 {
        var obj := CreateNilObject(cur, ParentObject(cur), spine, ctxs, arrays);
        FinishItem(ctxs, Nil, obj, arrays);
      } else {
        var obj := CreateArrayObject(cur, ParentObject(cur), elements, spine, ctxs, arrays);
        repr := repr + {obj.element};
        if elements > 0 {
          OpenArray(ctxs, obj, elements);
        } else {
          FinishItem(ctxs, Array([]), obj, arrays + {obj.element});
        }
      }
    }

    /** Processes an item according to its type. */
    method ProcessTyped() returns (ok: bool)
      requires Pending()
      modifies repr
      ensures Busy() && st == old(Target()) && ok == (old(Progress()) && !st.Broken?)
      ensures ok == (!old(ParseHead(|st.ctxs|, st.ty.value, st.unread)).More? && !st.Broken?)
      ensures fresh(repr - old(repr))
      ensures |buf| <= old(|buf|)
    {
      hide Spine;
      hide Tasks;
      hide ElementArrays;
      hide ParseHead;
      Machine.BreaksOnFault(st.ctxs, st.ty.value, st.unread);
      if rstack[ridx].ty == REPLY_STRING {
        ok := ProcessBulkItem();
      } else if rstack[ridx].ty == REPLY_ARRAY {
        ok := ProcessMultiBulkItem();
      } else {
        ok := ProcessLineItem();
      }
    }

    /** `processItem`: reads the type byte if it is not known yet. */
    method ProcessItem() returns (ok: bool)
      requires Valid() && st.Reading? && ridx >= 0
      modifies repr
      ensures Busy() && st == Machine.Process(old(st))
      ensures ok == (!Machine.Blocked(old(st)) && !st.Broken?)
      ensures fresh(repr - old(repr))
      ensures |buf| <= old(|buf|)
    {
      hide Spine;
      hide Tasks;
      hide Denotes;
      hide ElementArrays;
      hide ParseHead;
      if rstack[ridx].ty < 0 {
        if len - pos < 1 {
          return false;
        }
        var b := buf[pos];
        assert b == st.unread[0];
        pos := pos + 1;
        if !IsTypeByte(b) {
          SetError(BadTypeByte(b));
          return false;
        }
        SetType(b);
      }
      ok := ProcessTyped();
    }

    /** Remembers the type byte that was just consumed. */
    method SetType(b: byte)
      requires Shape() && IsTypeByte(b) && st.Reading? && Machine.WellFormed(st) && st.ty == None && err == None
      requires InItem(st.ctxs, None) && st.unread != [] && buf[pos..] == st.unread[1..]
      modifies this`st, rstack
      ensures Pending() && st == Machine.Reading(old(st).ctxs, Some(b), old(st).unread[1..])
      ensures spine == old(spine) && arrays == old(arrays) && ridx == old(ridx) && repr == old(repr)
    {
      hide Spine;
      hide ElementArrays;
      assert forall o: object | o in ElementArrays(spine) :: o != this && o != rstack;
      hide Tasks;
      hide Denotes;
      TasksRetype(rstack[..], st.ctxs, spine, TypeCode(b));
      ghost var tasks := rstack[..];
      rstack[ridx] := rstack[ridx].(ty := TypeCode(b));
      assert rstack[..] == tasks[ridx := rstack[ridx]];
      st := st.(ty := Some(b), unread := st.unread[1..]);
    }

    /** `redisReaderFeed`; `avail` is the spare capacity of the buffer. */
    method Feed(data: seq<byte>, avail: nat) returns (ok: bool)
      requires Valid() && !st.Complete?
      requires |buf| + |data| <= INT_MAX
      modifies this
      ensures Valid() && st == Machine.FeedState(old(st), data)
      ensures ok == !st.Broken? && pos <= old(pos) && repr == old(repr)
    {
      hide Spine;
      hide Tasks;
      hide Denotes;
      hide ElementArrays;
      assert forall o: object | o in ElementArrays(spine) :: o != this;
      if err.Some? {
        return false;
      }
      if |data| >= 1 {
        // an empty buffer with much spare room is dropped
        if len == 0 && maxbuf != 0 && avail > maxbuf {
          buf := [];
          pos := 0;
        }
        assert (buf + data)[pos..] == buf[pos..] + data;
        buf := buf + data;
        len := |buf|;
      }
      assert buf[pos..] == old(buf[pos..]) + data;
      st := Machine.FeedState(st, data);
      return true;
    }

    lemma BufferedIsUnread()
      requires Valid()
      ensures |buf| <= pos + |Machine.Unread(st)|
    {
    }

    /** The loop that processes items until one is incomplete. */
    method ProcessItems()
      requires Valid() && st.Reading? && ridx >= 0
      modifies repr
      ensures Valid() && st == Machine.Run(old(st)) && (ridx == -1 <==> !st.Reading?)
      ensures fresh(repr - old(repr))
      ensures |buf| <= old(|buf|)
    {
      hide Spine;
      hide Tasks;
      hide Denotes;
      hide ElementArrays;
      hide Machine.Process;
      hide Machine.Run;
      hide Machine.Blocked;
      while ridx >= 0
        invariant Busy()
        invariant Machine.Run(st) == Machine.Run(old(st))
        invariant fresh(repr - old(repr)) && |buf| <= old(|buf|)
        decreases if st.Reading? then |st.unread| else 0, ridx >= 0
      {
        Machine.RunStep(st);
        Machine.ProcessShrinks(st);
        var ok := ProcessItem();
        Machine.RunStep(st);
        if !ok {
          break;
        }
      }
      Machine.RunStep(st);
    }

    /** `redisReaderGetReply`. The reply it emits is a finished tree that the
        reader will not touch again. */
    method GetReply() returns (ok: bool, out: ReplyObject?, ghost tree: set<array<ReplyObject?>>)
      requires Valid() && Machine.Waiting(st) && pos < 1024
      modifies repr
      ensures Valid() && Machine.Waiting(st) && st == Machine.GetState(old(st))
      ensures ok == !st.Broken?
      ensures out == null <==> Machine.Emitted(old(st)) == []
      ensures out != null ==> Denotes(out, Machine.Emitted(old(st))[0], tree)
      ensures tree !! repr && fresh(repr - old(repr)) && fresh(tree - old(repr))
      ensures pos < 1024
    {
      hide Spine;
      hide Tasks;
      hide Denotes;
      hide ElementArrays;
      hide Machine.Process;
      hide Machine.Run;
      hide Machine.Blocked;
      hide ParseHead;
      out, tree := null, {};
      Machine.RunStops(st);
      Machine.RunStep(st);
      if err.Some? {
        return false, out, tree;
      }
      if len == 0 {
        Machine.NothingUnread(st);
        return true, out, tree;
      }
      // a new reply starts with one task
      if ridx == -1 {
        PushRoot();
      }
      ProcessItems();
      ok := err.None?;
      if ok {
        Compact();
        if ridx == -1 {
          out, tree := EmitReply();
        }
      }
    }

    /** Discards part of the buffer when at least 1k was consumed. */
    method Compact()
      requires Valid() && !st.Broken?
      modifies this`buf, this`pos, this`len
      ensures Valid() && pos < 1024
    {
      hide Spine;
      hide Tasks;
      hide Denotes;
      if pos >= 1024 {
        Sds.DropsPrefix(buf, pos);
        var rest := Sds.SdsRange(buf, pos, -1);
        assert rest == st.unread && rest[0..] == rest;
        assert forall o: object | o in ElementArrays(spine) :: o != this;
        buf, pos, len := rest, 0, |rest|;
      }
    }

    method PushRoot()
      requires Valid() && st.Reading? && ridx == -1
      modifies this`ridx, rstack
      ensures Busy()
    {
      rstack[0] := FreshTask;
      ridx := 0;
    }

    method EmitReply() returns (out: ReplyObject, ghost tree: set<array<ReplyObject?>>)
      requires Valid() && st.Complete?
      modifies this`reply, this`arrays, this`st, this`repr
      ensures Valid() && st == Machine.Reading([], None, old(st).unread)
      ensures Denotes(out, old(st).reply, tree) && tree == old(arrays)
      ensures repr == {this, rstack}
    {
      out := reply;
      reply := null;
      tree, arrays, repr := arrays, {}, {this, rstack};
      st := Machine.Reading([], None, buf[pos..]);
    }
  }

  // ----- A client of the reader

  ghost predicate AllDenote(objs: seq<ReplyObject>, vs: seq<Reply>, trees: set<array<ReplyObject?>>)
    reads trees
  {
    |objs| == |vs| && forall k | 0 <= k < |objs| :: Denotes(objs[k], vs[k], trees)
  }

  lemma AllDenoteMore(objs: seq<ReplyObject>, vs: seq<Reply>, trees: set<array<ReplyObject?>>,
                      o: ReplyObject, v: Reply, tree: set<array<ReplyObject?>>)
    requires AllDenote(objs, vs, trees) && Denotes(o, v, tree)
    ensures AllDenote(objs + [o], vs + [v], trees + tree)
  {
    forall k | 0 <= k < |objs|
      ensures Denotes(objs[k], vs[k], trees + tree)
    {
      DenotesInLarger(objs[k], vs[k], trees, trees + tree);
    }
    DenotesInLarger(o, v, tree, trees + tree);
  }

  /** One call of a client. */
  method Perform(r: Reader, op: Machine.Op) returns (out: ReplyObject?, ghost tree: set<array<ReplyObject?>>)
    requires r.Valid() && Machine.Waiting(r.st) && r.pos < 1024
    requires op.Feed? ==> |r.buf| + |op.data| <= INT_MAX
    modifies r.repr
    ensures r.Valid() && Machine.Waiting(r.st) && r.st == Machine.After(old(r.st), op)
    ensures out == null <==> Machine.Given(old(r.st), op) == []
    ensures |Machine.Given(old(r.st), op)| <= 1
    ensures out != null ==> Denotes(out, Machine.Given(old(r.st), op)[0], tree)
    ensures tree !! r.repr && fresh(r.repr - old(r.repr)) && fresh(tree - old(r.repr))
    ensures r.pos < 1024
  {
    hide Denotes;
    hide Spine;
    hide Machine.Run;
    hide Tasks;
    hide ElementArrays;
    match op {
      case Feed(data) =>
        var ok := r.Feed(data, 0);
        out, tree := null, {};
      case GetReply =>
        var ok;
        ok, out, tree := r.GetReply();
    }
  }

  /** Feeds a new reader and asks it for replies, in any order and for any time: only what is
      unread at a feed is bounded, next to fewer than 1024 bytes that are consumed and not
      yet dropped. Once drained, the objects it has handed out denote exactly the replies of
      the whole input. */
  method RunSession(ops: seq<Machine.Op>)
      returns (replies: seq<ReplyObject>, fault: Option<Fault>, ghost trees: set<array<ReplyObject?>>)
    requires forall i | 0 <= i < |ops| && ops[i].Feed? ::
               1024 + |Machine.Unread(Machine.RunSession(ops[..i]).state)| + |ops[i].data| <= INT_MAX
    ensures AllDenote(replies, Machine.RunSession(ops).replies, trees)
    ensures Machine.Drained(ops) ==> AllDenote(replies, Stream(Machine.Fed(ops)).replies, trees)
    ensures Machine.Drained(ops) ==> fault == Stream(Machine.Fed(ops)).fault
  {
    hide Denotes;
    hide Spine;
    hide Stream;
    hide AllDenote;
    hide Machine.Run;
    hide Machine.After;
    hide Machine.Given;
    hide Machine.RunSession;
    hide Machine.Fed;
    hide Tasks;
    hide ElementArrays;
    Machine.NoCalls();
    var r := new Reader();
    replies, trees := [], {};
    NoneDenote();
    for i := 0 to |ops|
      invariant r.Valid() && Machine.Waiting(r.st) && r.pos < 1024 && fresh(r.repr)
      invariant r.st == Machine.RunSession(ops[..i]).state
      invariant AllDenote(replies, Machine.RunSession(ops[..i]).replies, trees)
      invariant trees !! r.repr && fresh(trees)
    {
      r.BufferedIsUnread();
      Machine.SessionStep(ops, i);
      ghost var before := Machine.RunSession(ops[..i]);
      var out, tree := Perform(r, ops[i]);
      assert AllDenote(replies, before.replies, trees);
      ghost var given := Machine.Given(before.state, ops[i]);
      assert before.replies + given == if out == null then before.replies else before.replies + [given[0]];
      if out != null {
        AllDenoteMore(replies, before.replies, trees, out, given[0], tree);
        replies, trees := replies + [out], trees + tree;
      }
    }
    assert ops[..|ops|] == ops;
    fault := r.err;
    if Machine.Drained(ops) {
      Machine.ChunkingInvariance(ops);
    }
  }

  lemma NoneDenote()
    ensures AllDenote([], [], {})
  {
  }
}

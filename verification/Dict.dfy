/** The chained hash table of dict.c: buckets of linked entries, grown in place by
    relinking every entry. */
module Dict {
  import opened Bytes
  import Bits

  const DICT_HT_INITIAL_SIZE: nat := 4

  /** `dictEntry`. The key never changes once the entry is in a table. */
  class Entry<K(==), V> {
    const key: K
    var val: V
    var next: Entry?<K, V>

    constructor (key: K, val: V, next: Entry?<K, V>)
      ensures this.key == key && this.val == val && this.next == next
    {
      this.key, this.val, this.next := key, val, next;
    }
  }

  /** `es` are the entries linked from `head` on. */
  ghost predicate Chain<K, V>(head: Entry?<K, V>, es: seq<Entry<K, V>>)
    reads es
  {
    if es == [] then head == null
    else
      && head == es[0]
      && (forall a | 0 < a < |es| :: es[a - 1].next == es[a])
      && es[|es| - 1].next == null
  }

  // ----- Buckets of entries, without the links between them

  type Buckets<K(==), V> = seq<seq<Entry<K, V>>>

  /** The entry with a given key in a bucket. */
  function Lookup<K, V>(es: seq<Entry<K, V>>, k: K): (r: Option<Entry<K, V>>)
    ensures r.Some? ==> r.value in es && r.value.key == k
    ensures r.None? ==> forall e | e in es :: e.key != k
  {
    if es == [] then None else if es[0].key == k then Some(es[0]) else Lookup(es[1..], k)
  }

  ghost predicate DistinctKeys<K, V>(es: seq<Entry<K, V>>) {
    forall a, b | 0 <= a < b < |es| :: es[a].key != es[b].key
  }

  function Slot<K>(hash: K -> nat, k: K, size: nat): (h: nat)
    requires size > 0
    ensures h < size
  {
    hash(k) % size
  }

  /** Every entry sits in the slot of its key, and keys are not repeated. */
  ghost predicate Ordered<K, V>(b: Buckets<K, V>, hash: K -> nat) {
    && (forall i, e | 0 <= i < |b| && e in b[i] :: Slot(hash, e.key, |b|) == i)
    && (forall i | 0 <= i < |b| :: DistinctKeys(b[i]))
  }

  /** The buckets hold exactly the entries of `m`, each under its key. */
  ghost predicate Holds<K(!new), V>(b: Buckets<K, V>, hash: K -> nat, m: map<K, Entry<K, V>>) {
    forall k: K ::
      (if |b| == 0 then None else Lookup(b[Slot(hash, k, |b|)], k)) == if k in m then Some(m[k]) else None
  }

  ghost function Count<K, V>(b: Buckets<K, V>): nat {
    if b == [] then 0 else |b[0]| + Count(b[1..])
  }

  /** All entries, slot by slot. */
  ghost function Flatten<K, V>(b: Buckets<K, V>): seq<Entry<K, V>> {
    if b == [] then [] else b[0] + Flatten(b[1..])
  }

  /** What is left from slot `i` on starts with slot `i`. */
  lemma FlattenFrom<K, V>(b: Buckets<K, V>, i: nat)
    requires i < |b|
    ensures Flatten(b[i..]) == b[i] + Flatten(b[i + 1..]) && Count(b[i..]) == |b[i]| + Count(b[i + 1..])
  {
    assert b[i..][1..] == b[i + 1..];
  }

  lemma FlattenAll<K, V>(b: Buckets<K, V>)
    ensures [] + Flatten(b[0..]) == Flatten(b)
  {
    assert b[0..] == b;
  }

  lemma FlattenNothing<K, V>(b: Buckets<K, V>)
    requires b == []
    ensures Flatten(b) == [] && Count(b) == 0
  {
  }

  lemma {:induction false} FlattenCount<K, V>(b: Buckets<K, V>)
    ensures |Flatten(b)| == Count(b)
  {
    if b != [] {
      FlattenCount(b[1..]);
    }
  }

  /** The entries listed from slot `j` on: each once, and each in a slot from `j` on. */
  lemma {:induction false} ListedOnce<K, V>(b: Buckets<K, V>, hash: K -> nat, j: nat)
    requires Ordered(b, hash) && j <= |b|
    ensures forall e | e in Flatten(b[j..]) :: Slot(hash, e.key, |b|) >= j && e in b[Slot(hash, e.key, |b|)]
    ensures DistinctKeys(Flatten(b[j..]))
    ensures forall i, e | j <= i < |b| && e in b[i] :: e in Flatten(b[j..])
    decreases |b| - j
  {
    if j < |b| {
      FlattenFrom(b, j);
      ListedOnce(b, hash, j + 1);
      assert forall e | e in b[j] :: Slot(hash, e.key, |b|) == j;
    }
  }

  lemma {:induction false} CountUpdate<K, V>(b: Buckets<K, V>, i: nat, es: seq<Entry<K, V>>)
    requires i < |b|
    ensures Count(b[i := es]) == Count(b) - |b[i]| + |es|
  {
    if i == 0 {
      assert b[i := es][1..] == b[1..];
    } else {
      CountUpdate(b[1..], i - 1, es);
      assert b[i := es][1..] == b[1..][i - 1 := es];
    }
  }

  lemma {:induction false} CountZero<K, V>(b: Buckets<K, V>)
    ensures Count(b) == 0 <==> forall i | 0 <= i < |b| :: b[i] == []
  {
    if b != [] {
      CountZero(b[1..]);
      assert forall i | 0 < i < |b| :: b[i] == b[1..][i - 1];
    }
  }

  lemma {:induction false} LookupAppend<K, V>(p: seq<Entry<K, V>>, q: seq<Entry<K, V>>, k: K)
    ensures Lookup(p + q, k) == if Lookup(p, k).Some? then Lookup(p, k) else Lookup(q, k)
  {
    if p == [] {
      assert p + q == q;
    } else {
      LookupAppend(p[1..], q, k);
      assert (p + q)[1..] == p[1..] + q;
    }
  }

  lemma {:induction false} LookupUnique<K, V>(es: seq<Entry<K, V>>, a: nat)
    requires a < |es| && DistinctKeys(es)
    ensures Lookup(es, es[a].key) == Some(es[a])
  {
    if a > 0 {
      LookupUnique(es[1..], a - 1);
    }
  }

  /** A new entry at the front of the slot of its key. */
  lemma PushEntry<K(!new), V>(b: Buckets<K, V>, hash: K -> nat, m: map<K, Entry<K, V>>, e: Entry<K, V>, i: nat)
    requires |b| > 0 && Ordered(b, hash) && Holds(b, hash, m)
    requires i == Slot(hash, e.key, |b|) && e.key !in m
    ensures var b' := b[i := [e] + b[i]];
            Ordered(b', hash) && Holds(b', hash, m[e.key := e]) && Count(b') == Count(b) + 1
  {
    hide Lookup;
    hide Count;
    var b' := b[i := [e] + b[i]];
    CountUpdate(b, i, [e] + b[i]);
    assert Lookup(b[Slot(hash, e.key, |b|)], e.key) == None;
    forall k: K
      ensures Lookup(b'[Slot(hash, k, |b|)], k) == if k == e.key then Some(e) else if k in m then Some(m[k]) else None
    {
      assert Lookup(b[Slot(hash, k, |b|)], k) == if k in m then Some(m[k]) else None;
      LookupCons(e, b[i], k);
    }
  }

  /** A bucket without its entry at index `a`. */
  ghost function Without<K, V>(es: seq<Entry<K, V>>, a: nat): seq<Entry<K, V>>
    requires a < |es|
  {
    es[..a] + es[a + 1..]
  }

  /** Slot `h` has lost the entry of the key, and nothing else is different. */
  ghost predicate Unlinked<K, V>(before: Buckets<K, V>, after: Buckets<K, V>, h: nat, key: K) {
    && h < |before|
    && exists a: nat :: a < |before[h]| && before[h][a].key == key && after == before[h := Without(before[h], a)]
  }

  lemma LookupWithout<K, V>(es: seq<Entry<K, V>>, a: nat, k: K)
    requires a < |es| && DistinctKeys(es)
    ensures Lookup(Without(es, a), k) == if k == es[a].key then None else Lookup(es, k)
    ensures Lookup(es, es[a].key) == Some(es[a])
  {
    hide Lookup;
    hide DistinctKeys;
    LookupUnique(es, a);
    LookupAppend(es[..a], es[a + 1..], k);
    LookupAppend(es[..a], [es[a]] + es[a + 1..], k);
    assert es[..a] + ([es[a]] + es[a + 1..]) == es;
    LookupCons(es[a], es[a + 1..], k);
    NotAround(es, a);
  }

  lemma LookupCons<K, V>(e: Entry<K, V>, es: seq<Entry<K, V>>, k: K)
    ensures Lookup([e] + es, k) == if e.key == k then Some(e) else Lookup(es, k)
  {
    assert ([e] + es)[1..] == es;
  }

  lemma DropOrdered<K(!new), V>(b: Buckets<K, V>, hash: K -> nat, i: nat, a: nat)
    requires Ordered(b, hash) && i < |b| && a < |b[i]|
    ensures Ordered(b[i := Without(b[i], a)], hash)
    ensures Count(b[i := Without(b[i], a)]) == Count(b) - 1
  {
    var b' := b[i := Without(b[i], a)];
    CountUpdate(b, i, Without(b[i], a));
    assert forall e :: e in b'[i] ==> e in b[i];
  }

  /** Taking an entry out of its slot. */
  lemma DropEntry<K(!new), V>(b: Buckets<K, V>, hash: K -> nat, m: map<K, Entry<K, V>>, i: nat, a: nat)
    requires Ordered(b, hash) && Holds(b, hash, m)
    requires i < |b| && a < |b[i]|
    ensures Holds(b[i := Without(b[i], a)], hash, m - {b[i][a].key})
    ensures b[i][a].key in m && m[b[i][a].key] == b[i][a]
  {
    hide Lookup;
    hide Without;
    var es, k := b[i], b[i][a].key;
    var b' := b[i := Without(es, a)];
    assert es[a] in b[i];
    LookupWithout(es, a, k);
    assert Lookup(b[Slot(hash, k, |b|)], k) == Some(es[a]);
    forall k': K
      ensures Lookup(b'[Slot(hash, k', |b|)], k') == if k' in m && k' != k then Some(m[k']) else None
    {
      assert Lookup(b[Slot(hash, k', |b|)], k') == if k' in m then Some(m[k']) else None;
      LookupWithout(es, a, k');
    }
  }

  lemma NotAround<K, V>(es: seq<Entry<K, V>>, a: nat)
    requires a < |es| && DistinctKeys(es)
    ensures Lookup(es[..a], es[a].key) == None && Lookup(es[a + 1..], es[a].key) == None
  {
  }

  /** An entry in the buckets is the one its key is mapped to. */
  lemma InBucket<K(!new), V>(b: Buckets<K, V>, hash: K -> nat, m: map<K, Entry<K, V>>, i: nat, e: Entry<K, V>)
    requires Ordered(b, hash) && Holds(b, hash, m) && i < |b| && e in b[i]
    ensures e.key in m && m[e.key] == e
  {
    var a :| 0 <= a < |b[i]| && b[i][a] == e;
    LookupUnique(b[i], a);
    assert Lookup(b[Slot(hash, e.key, |b|)], e.key) == Some(e);
  }

  lemma NothingHeld<K(!new), V>(b: Buckets<K, V>, hash: K -> nat, m: map<K, Entry<K, V>>)
    requires Holds(b, hash, m) && Count(b) == 0
    ensures m == map[]
  {
    CountZero(b);
    forall k: K
      ensures k !in m
    {
      assert (if |b| == 0 then None else Lookup(b[Slot(hash, k, |b|)], k)) == None;
    }
    assert m.Keys == {};
  }

  ghost predicate PowerOfTwo(n: nat) {
    exists k: nat :: n == Bits.Pow2(k)
  }

  lemma {:induction false} Pow2Steps(a: nat, b: nat)
    requires Bits.Pow2(b) <= Bits.Pow2(a) < 2 * Bits.Pow2(b)
    ensures a == b
  {
    if a == 0 || b == 0 {
    } else {
      Pow2Steps(a - 1, b - 1);
    }
  }

  /** The power of two next to a power of two is that number itself. */
  lemma NextToPower(i: nat, size: nat)
    requires PowerOfTwo(i) && PowerOfTwo(size) && size <= i < 2 * size
    ensures i == size
  {
    var a: nat :| i == Bits.Pow2(a);
    var b: nat :| size == Bits.Pow2(b);
    Pow2Steps(a, b);
  }

  lemma Doubled(size: nat)
    requires PowerOfTwo(size)
    ensures PowerOfTwo(2 * size)
  {
    var k: nat :| size == Bits.Pow2(k);
    assert 2 * size == Bits.Pow2(k + 1);
  }

  lemma {:induction false} WordsDivide(k: nat)
    requires k >= 32
    ensures Bits.Pow2(k) % TWO_32 == 0
  {
    if k == 32 {
      Bits.WordPowers();
    } else {
      WordsDivide(k - 1);
    }
  }

  /** Cast to `int`, a size past INT_MAX is not positive. */
  lemma LargeSize(size: nat)
    requires PowerOfTwo(size) && size > INT_MAX
    ensures ToInt32(size) <= 0
  {
    var k: nat :| size == Bits.Pow2(k);
    if k >= 32 {
      WordsDivide(k);
    } else {
      Bits.WordPowers();
      SmallPowers(k);
    }
  }

  lemma {:induction false} SmallPowers(k: nat)
    requires k <= 31
    ensures Bits.Pow2(k) <= Bits.Pow2(31)
    decreases 31 - k
  {
    if k < 31 {
      SmallPowers(k + 1);
    }
  }

  /** `_dictNextPower`: the least power of two, from 4 on, that is large enough; sizes from
      LONG_MAX on give LONG_MAX, which is no power of two. */
  method NextPower(size: nat) returns (i: nat)
    ensures i >= DICT_HT_INITIAL_SIZE
    ensures if size < LLONG_MAX then PowerOfTwo(i) && size <= i && (i == DICT_HT_INITIAL_SIZE || i < 2 * size)
            else i == LLONG_MAX
  {
    if size >= LLONG_MAX {
      return LLONG_MAX;
    }
    i := DICT_HT_INITIAL_SIZE;
    ghost var k := 2;
    assert i == Bits.Pow2(k);
    while true
      invariant i == Bits.Pow2(k) && i >= DICT_HT_INITIAL_SIZE
      invariant i == DICT_HT_INITIAL_SIZE || i < 2 * size
      decreases size - i
    {
      if i >= size {
        return;
      }
      i := i * 2;
      k := k + 1;
    }
  }

  // ----- Links

  lemma ChainStart<K, V>(head: Entry?<K, V>, es: seq<Entry<K, V>>)
    requires Chain(head, es)
    ensures head == First(es[0..])
  {
  }

  /** The entry at index `n` of a list, and the link to the next one. */
  lemma ChainAt<K, V>(head: Entry?<K, V>, es: seq<Entry<K, V>>, n: nat)
    requires Chain(head, es) && n <= |es|
    ensures First(es[n..]) != null ==> n < |es| && First(es[n..]) == es[n] && es[n].next == First(es[n + 1..])
    ensures First(es[n..]) == null ==> n == |es|
    ensures n < |es| ==> es[..n] + [es[n]] == es[..n + 1]
  {
  }

  lemma ChainNext<K, V>(head: Entry?<K, V>, es: seq<Entry<K, V>>)
    requires Chain(head, es) && es != []
    ensures head == es[0] && Chain(head.next, es[1..])
  {
  }

  ghost function Entries<K, V>(b: Buckets<K, V>): (s: set<Entry<K, V>>)
    ensures forall i, e | 0 <= i < |b| && e in b[i] :: e in s
    ensures forall e | e in s :: exists i :: 0 <= i < |b| && e in b[i]
  {
    set i, e | 0 <= i < |b| && e in b[i] :: e
  }

  /** Bucket i is linked from slot i, for all slots from `start` on. */
  ghost predicate Linked<K, V>(heads: array<Entry?<K, V>>, b: Buckets<K, V>, start: nat)
    reads heads, Entries(b)
  {
    heads.Length == |b| && forall i | start <= i < |b| :: Chain(heads[i], b[i])
  }

  /** Links an entry in front of bucket `h`. */
  method LinkFront<K, V>(heads: array<Entry?<K, V>>, ghost b: Buckets<K, V>, h: nat, e: Entry<K, V>)
    requires Linked(heads, b, 0) && h < |b|
    requires forall i | 0 <= i < |b| :: e !in b[i]
    modifies heads, e`next
    ensures Linked(heads, b[h := [e] + b[h]], 0)
  {
    var first := heads[h];
    e.next := first;
    heads[h] := e;
    ghost var es := b[h];
    assert Chain(first, es);
    assert Chain(e, [e] + es);
  }

  /** Takes entry `de` out of its list, at index `a` of bucket `h`. */
  method Bypass<K, V>(heads: array<Entry?<K, V>>, ghost b: Buckets<K, V>, h: nat, ghost a: nat,
                      prevde: Entry?<K, V>, de: Entry<K, V>)
    requires Linked(heads, b, 0) && h < |b|
    requires a < |b[h]| && de == b[h][a] && prevde == if a > 0 then b[h][a - 1] else null
    requires forall x, y | 0 <= x < y < |b[h]| :: b[h][x] != b[h][y]
    requires forall e, j | e in b[h] && 0 <= j < |b| && j != h :: e !in b[j]
    modifies heads, {prevde}`next
    ensures Linked(heads, b[h := Without(b[h], a)], 0)
  {
    ghost var es := b[h];
    assert Chain(heads[h], es);
    assert a > 0 ==> es[a - 1] in b[h];
    if prevde != null {
      prevde.next := de.next;
    } else {
      heads[h] := de.next;
    }
    assert Chain(heads[h], Without(es, a));
  }

  /** No entry is in two places. */
  lemma Apart<K, V>(b: Buckets<K, V>, hash: K -> nat, h: nat)
    requires Ordered(b, hash) && h < |b|
    ensures forall x, y | 0 <= x < y < |b[h]| :: b[h][x] != b[h][y]
    ensures forall e, j | e in b[h] && 0 <= j < |b| && j != h :: e !in b[j]
  {
    forall e, j | e in b[h] && 0 <= j < |b| && j != h
      ensures e !in b[j]
    {
      assert Slot(hash, e.key, |b|) == h;
    }
  }

  /** Masking a hash with the size minus one picks the slot. */
  lemma Masked(h: nat, size: nat)
    requires PowerOfTwo(size)
    ensures size > 0 && Bits.And(h, size - 1) == h % size
  {
    var k: nat :| size == Bits.Pow2(k);
    Bits.AndMask(h, k);
  }

  // ----- The hash table

  /** `dict`. The ghost fields hold the entries of each slot, in link order, and
      the entry of each key. */
  class HashTable<K(==, !new), V> {
    var table: array<Entry?<K, V>>
    var size: nat
    var sizemask: nat
    var used: nat
    const hash: K -> nat

    ghost var chains: Buckets<K, V>
    ghost var m: map<K, Entry<K, V>>
    ghost var repr: set<object>

    ghost predicate Valid()
      reads this, repr
    {
      && this in repr && table in repr && Entries(chains) <= repr
      && (forall k | k in m :: m[k] in repr)
      && table.Length == size == |chains|
      && (size > 0 ==> PowerOfTwo(size) && size >= DICT_HT_INITIAL_SIZE && sizemask == size - 1)
      && Linked(table, chains, 0) && Ordered(chains, hash) && Holds(chains, hash, m)
      && used == Count(chains) == |m| && used <= size
    }

    lemma Shape()
      requires Valid()
      ensures table.Length == size == |chains|
      ensures size > INT_MAX ==> ToInt32(size) <= 0
    {
      if size > INT_MAX {
        LargeSize(size);
      }
    }

    lemma UsedIsSize()
      requires Valid()
      ensures used == |Contents()|
    {
      assert Contents().Keys == m.Keys;
      assert |Contents()| == |Contents().Keys| == |m.Keys| == |m|;
    }

    lemma FirstInSlot(i: nat)
      requires Valid() && i < size
      ensures i < |chains| == table.Length && table[i] == First(chains[i]) && EndsSlot(chains, i, chains[i])
    {
      hide Holds;
      hide Ordered;
      hide Count;
      hide PowerOfTwo;
      hide Entries;
      assert Chain(table[i], chains[i]);
    }

    /** Stepping to the first entry of what is left of a slot. */
    lemma NextInSlot(i: int, rest: seq<Entry<K, V>>, entry: Entry<K, V>, later: seq<Entry<K, V>>)
      requires Valid() && EndsSlot(chains, i, rest) && entry == First(rest)
      ensures rest != [] && rest[0] == entry && entry.next == First(rest[1..])
      ensures EndsSlot(chains, i, rest[1..]) && JustBefore(chains, i, rest[1..], entry)
      ensures rest + later != [] && (rest + later)[0] == entry && (rest + later)[1..] == rest[1..] + later
    {
      hide Holds;
      hide Ordered;
      hide Count;
      hide PowerOfTwo;
      hide Entries;
      assert Chain(table[i], chains[i]);
      assert rest[0] == chains[i][|chains[i]| - |rest|];
    }

    /** Looking up a key in its slot finds the entry of the map. */
    lemma InSlot(key: K)
      requires Valid() && size > 0
      ensures Slot(hash, key, size) < |chains| == size
      ensures Lookup(chains[Slot(hash, key, size)], key) == if key in m then Some(m[key]) else None
    {
      hide Lookup;
      hide Ordered;
    }

    lemma Listing(drop: K -> bool)
      requires Valid()
      ensures m - Dropped(Flatten(chains), drop) == map k | k in m && !drop(k) :: m[k]
    {
      DroppedAll(chains, hash, m, drop);
    }

    /** What the table maps each key to. */
    ghost function Contents(): map<K, V>
      requires Valid()
      reads this, repr
    {
      map k | k in m :: m[k].val
    }

    /** `dictCreate` and `_dictInit`. */
    constructor (hash: K -> nat)
      ensures Valid() && fresh(repr) && this.hash == hash && size == used == 0
      ensures Contents() == map[] && m == map[]
    {
      this.hash := hash;
      table := new Entry?<K, V>[0];
      size, sizemask, used := 0, 0, 0;
      chains, m := [], map[];
      new;
      repr := {this, table};
    }

    /** `dictFind`. */
    method Find(key: K) returns (he: Entry?<K, V>)
      requires Valid()
      ensures he == if key in m then m[key] else null
    {
      hide Count;
      hide Holds;
      hide Ordered;
      if size == 0 {
        NothingHeld(chains, hash, m);
        return null;
      }
      Masked(hash(key), size);
      InSlot(key);
      var h := Bits.And(hash(key), sizemask);
      he := FindIn(table[h], key, chains[h]);
    }

    /** The loop over the entries of one slot. */
    static method FindIn(head: Entry?<K, V>, key: K, ghost es: seq<Entry<K, V>>) returns (he: Entry?<K, V>)
      requires Chain(head, es)
      ensures he == if Lookup(es, key).Some? then Lookup(es, key).value else null
    {
      he := head;
      ghost var rest := es;
      while he != null
        invariant Chain(he, rest) && Lookup(rest, key) == Lookup(es, key)
        decreases |rest|
      {
        ChainNext(he, rest);
        if key == he.key {
          return;
        }
        he := he.next;
        rest := rest[1..];
      }
    }

    /** `dictExpand`: relinks every entry into a new table. The entries stay the
        same objects, and the map from keys to entries is unchanged. */
    method Expand(newSize: nat) returns (ok: bool)
      requires Valid() && newSize < LLONG_MAX
      modifies repr
      ensures Valid() && fresh(repr - old(repr)) && m == old(m) && used == old(used)
      ensures forall k | k in m :: m[k].val == old(m[k].val)
      ensures ok == (used <= newSize)
      ensures ok ==> size >= newSize && (size == DICT_HT_INITIAL_SIZE || size < 2 * newSize)
      ensures !ok ==> size == old(size)
    {
      hide Holds;
      hide Ordered;
      hide Chain;
      hide Parted;
      hide Count;
      hide PowerOfTwo;
      var realsize := NextPower(newSize);
      if used > newSize {
        return false;
      }
      var n := new Entry?<K, V>[realsize](_ => null);
      var nUsed := used;
      ghost var moved := EmptyBuckets<K, V>(realsize);
      NothingMoved(n, moved, chains, hash, m);
      moved := MoveAll(n, moved);
      Become(n, nUsed, moved);
      return true;
    }

    /** The loop of `dictExpand` over the slots, which stops once nothing is in use. */
    method MoveAll(n: array<Entry?<K, V>>, ghost empty: Buckets<K, V>) returns (ghost moved: Buckets<K, V>)
      requires Valid() && n !in repr && n.Length > 0 && PowerOfTwo(n.Length)
      requires Parted(hash, chains, empty, m, map[], m) && Linked(n, empty, 0) && Count(empty) == 0
      modifies repr, n
      ensures m == old(m) && repr == old(repr) && used == 0
      ensures forall k | k in m :: m[k].val == old(m[k].val)
      ensures Ordered(moved, hash) && Holds(moved, hash, m) && Linked(n, moved, 0) && Count(moved) == old(used)
      ensures forall e | e in Entries(moved) :: e.key in m && m[e.key] == e
    {
      hide Holds;
      hide Ordered;
      hide Chain;
      hide Parted;
      hide Count;
      hide PowerOfTwo;
      ghost var left, mLeft, mMoved: map<K, Entry<K, V>> := chains, m, map[];
      moved := empty;
      var i := 0;
      while i < size && used > 0
        invariant i <= size == |left| && table == old(table) && size == old(size)
        invariant m == old(m) && repr == old(repr)
        invariant forall k | k in m :: m[k].val == old(m[k].val)
        invariant forall j | 0 <= j < i :: left[j] == []
        invariant Moving(n, i, left, moved, mLeft, mMoved)
        invariant used == Count(left) && Count(left) + Count(moved) == old(used)
      {
        left, moved, mLeft, mMoved := MoveSlot(n, i, left, moved, mLeft, mMoved);
        i := i + 1;
      }
      CountZero(left);
      assert used == 0;
      AllMoved(hash, left, moved, mLeft, mMoved, m);
    }

    /** `*ht = n` */
    method Become(n: array<Entry?<K, V>>, nUsed: nat, ghost moved: Buckets<K, V>)
      requires this in repr && forall k | k in m :: m[k] in repr
      requires Ordered(moved, hash) && Holds(moved, hash, m)
      requires forall e | e in Entries(moved) :: e.key in m && m[e.key] == e
      requires Linked(n, moved, 0) && nUsed == Count(moved) == |m| && nUsed <= n.Length
      requires PowerOfTwo(n.Length) && n.Length >= DICT_HT_INITIAL_SIZE
      modifies this
      ensures Valid() && repr == old(repr) + {n} && m == old(m) && used == nUsed && size == n.Length
    {
      hide Holds;
      hide Ordered;
      hide PowerOfTwo;
      hide Count;
      hide Chain;
      table, size, sizemask, used := n, n.Length, n.Length - 1, nUsed;
      chains, repr := moved, repr + {n};
    }

    /** In the middle of `dictExpand`: the old table is linked from slot `start` on. */
    ghost predicate Moving(n: array<Entry?<K, V>>, start: nat, left: Buckets<K, V>, moved: Buckets<K, V>,
                           mLeft: map<K, Entry<K, V>>, mMoved: map<K, Entry<K, V>>)
      reads this, table, n, Entries(left), Entries(moved)
    {
      && n != table && n.Length > 0 && PowerOfTwo(n.Length) && |left| == size
      && Parted(hash, left, moved, mLeft, mMoved, m)
      && Linked(table, left, start) && Linked(n, moved, 0)
    }

    /** The loop of `dictExpand` over the entries of one slot. */
    method MoveSlot(n: array<Entry?<K, V>>, i: nat, ghost left: Buckets<K, V>, ghost moved: Buckets<K, V>,
                    ghost mLeft: map<K, Entry<K, V>>, ghost mMoved: map<K, Entry<K, V>>)
      returns (ghost left': Buckets<K, V>, ghost moved': Buckets<K, V>,
               ghost mLeft': map<K, Entry<K, V>>, ghost mMoved': map<K, Entry<K, V>>)
      requires Moving(n, i, left, moved, mLeft, mMoved) && i < size && used == Count(left)
      modifies this`used, n, (set k | k in m :: m[k])`next
      ensures Moving(n, i + 1, left', moved', mLeft', mMoved')
      ensures left' == left[i := []]
      ensures used == Count(left') && Count(left') + Count(moved') == Count(left) + Count(moved)
    {
      hide Parted;
      hide Count;
      hide PowerOfTwo;
      hide Slot;
      left', moved', mLeft', mMoved' := left, moved, mLeft, mMoved;
      var he := table[i];
      while he != null
        modifies this`used, n, (set k | k in m :: m[k])`next
        invariant |left'| == |left| && forall j | 0 <= j < |left| && j != i :: left'[j] == left[j]
        invariant Moving(n, i + 1, left', moved', mLeft', mMoved') && Chain(he, left'[i])
        invariant used == Count(left') && Count(left') + Count(moved') == Count(left) + Count(moved)
        decreases |left'[i]|
      {
        var e: Entry<K, V> := he;
        MoveEntry(hash, left', moved', mLeft', mMoved', m, i);
        ghost var h := Slot(hash, e.key, |moved'|);
        he := MoveOne(n, hash, e, table, left', moved', i);
        left', moved' := left'[i := left'[i][1..]], moved'[h := [e] + moved'[h]];
        mLeft', mMoved' := mLeft' - {e.key}, mMoved'[e.key := e];
        used := used - 1;
      }
    }

    static method MoveOne(n: array<Entry?<K, V>>, hash: K -> nat, e: Entry<K, V>, ghost oldTable: array<Entry?<K, V>>,
                          ghost left: Buckets<K, V>, ghost moved: Buckets<K, V>, ghost i: nat)
      returns (nextHe: Entry?<K, V>)
      requires n != oldTable && n.Length > 0 && PowerOfTwo(n.Length)
      requires Linked(oldTable, left, i + 1) && Linked(n, moved, 0)
      requires i < |left| && Chain(e, left[i])
      requires forall j | 0 <= j < |moved| :: e !in moved[j]
      requires e !in left[i][1..] && forall j | 0 <= j < |left| && j != i :: e !in left[j]
      modifies n, e`next
      ensures Linked(n, moved[Slot(hash, e.key, |moved|) := [e] + moved[Slot(hash, e.key, |moved|)]], 0)
      ensures Linked(oldTable, left[i := left[i][1..]], i + 1) && Chain(nextHe, left[i][1..])
    {
      ChainNext(e, left[i]);
      nextHe := e.next;
      Masked(hash(e.key), n.Length);
      var h := Bits.And(hash(e.key), n.Length - 1);
      assert left[i := left[i][1..]][i] == left[i][1..];
      LinkFront(n, moved, h, e);
    }

    /** The size after the next `_dictExpandIfNeeded`. */
    function Grown(): (s: nat)
      ensures s > 0
      reads this
    {
      if size == 0 then DICT_HT_INITIAL_SIZE else if used == size then 2 * size else size
    }

    /** Whether the table can take a new key: the table it grows to has less than LONG_MAX
        slots, and the slot of the key is a C `int`. */
    predicate Accepts(key: K)
      reads this
    {
      Grown() < LLONG_MAX && Slot(hash, key, Grown()) <= INT_MAX
    }

    /** `_dictExpandIfNeeded` */
    method ExpandIfNeeded() returns (ok: bool)
      requires Valid() && Grown() < LLONG_MAX
      modifies repr
      ensures ok && Valid() && fresh(repr - old(repr)) && m == old(m) && used == old(used)
      ensures forall k | k in m :: m[k].val == old(m[k].val)
      ensures used < size == old(Grown())
      ensures size == if old(size) == 0 then 4 else if old(used) < old(size) then old(size) else 2 * old(size)
    {
      hide Holds;
      hide Ordered;
      hide Linked;
      hide Count;
      if size == 0 {
        ok := Expand(DICT_HT_INITIAL_SIZE);
        assert DICT_HT_INITIAL_SIZE == Bits.Pow2(2);
        NextToPower(size, DICT_HT_INITIAL_SIZE);
      } else if used == size {
        Doubled(size);
        ok := Expand(size * 2);
        NextToPower(size, 2 * old(size));
      } else {
        ok := true;
      }
    }

    /** `_dictKeyIndex`: the slot for a new entry as an `int`, or -1 if the key exists. */
    method KeyIndex(key: K) returns (index: int)
      requires Valid() && Grown() < LLONG_MAX
      modifies repr
      ensures Valid() && fresh(repr - old(repr)) && m == old(m) && used == old(used)
      ensures forall k | k in m :: m[k].val == old(m[k].val)
      ensures used < size == old(Grown())
      ensures index == if key in m then -1 else ToInt32(hash(key) % size)
    {
      hide Ordered;
      hide Count;
      hide Holds;
      hide PowerOfTwo;
      var ok := ExpandIfNeeded();
      if !ok {
        return -1;
      }
      Masked(hash(key), size);
      InSlot(key);
      var h := Bits.And(hash(key), sizemask);
      var he := FindIn(table[h], key, chains[h]);
      if he != null {
        return -1;
      }
      return ToInt32(h);
    }

    /** `dictAdd` */
    method Add(key: K, val: V) returns (ok: bool)
      requires Valid() && (key in m || Accepts(key)) && Grown() < LLONG_MAX
      modifies repr
      ensures Valid() && fresh(repr - old(repr))
      ensures ok == (key !in old(m)) && size == old(Grown())
      ensures !ok ==> m == old(m) && used == old(used)
      ensures ok ==> key in m && m == old(m)[key := m[key]] && m[key].val == val && used == old(used) + 1
      ensures forall k | k in old(m) :: m[k].val == old(m[k].val)
      ensures Contents() == if ok then old(Contents())[key := val] else old(Contents())
    {
      hide Holds;
      hide Ordered;
      hide Linked;
      hide Count;
      hide PowerOfTwo;
      var index := KeyIndex(key);
      if index == -1 {
        return false;
      }
      Insert(key, val, index);
      return true;
    }

    /** The part of `dictAdd` that links the new entry. */
    method Insert(key: K, val: V, index: nat)
      requires Valid() && key !in m && used < size && index == Slot(hash, key, size)
      modifies this, table
      ensures Valid() && fresh(repr - old(repr)) && size == old(size)
      ensures key in m && fresh(m[key]) && m == old(m)[key := m[key]] && m[key].val == val && used == old(used) + 1
      ensures index < |old(chains)| && chains == old(chains)[index := [m[key]] + old(chains[index])] && index == hash(key) % size
    {
      hide Holds;
      hide Ordered;
      hide Count;
      hide PowerOfTwo;
      var entry := new Entry(key, val, table[index]);
      PushEntry(chains, hash, m, entry, index);
      table[index] := entry;
      used := used + 1;
      assert Chain(entry, [entry] + chains[index]);
      chains := chains[index := [entry] + chains[index]];
      m := m[key := entry];
      repr := repr + {entry};
    }

    /** `dictReplace`: 1 for a new key and 0 for a new value of an old one. */
    method Replace(key: K, val: V) returns (added: nat)
      requires Valid() && (key in m || Accepts(key)) && Grown() < LLONG_MAX
      modifies repr
      ensures Valid() && fresh(repr - old(repr))
      ensures added == if key in old(m) then 0 else 1
      ensures used == old(used) + added && size == old(Grown())
      ensures added == 0 ==> m == old(m)
      ensures Contents() == old(Contents())[key := val]
    {
      hide Holds;
      hide Ordered;
      hide Linked;
      hide Count;
      hide PowerOfTwo;
      var ok := Add(key, val);
      if ok {
        return 1;
      }
      var entry := Find(key);
      KeysMatch(chains, hash, m);
      SetVal(entry, val);
      return 0;
    }

    /** `dictSetHashVal` */
    method SetVal(entry: Entry<K, V>, val: V)
      requires Valid()
      modifies entry`val
      ensures Valid() && entry.val == val
    {
      hide Holds;
      hide Ordered;
      hide Count;
      hide PowerOfTwo;
      entry.val := val;
    }

    /** `dictDelete` */
    method Delete(key: K) returns (ok: bool)
      requires Valid()
      modifies repr
      ensures Valid() && repr == old(repr) && size == old(size) && table == old(table)
      ensures ok == (key in old(m))
      ensures m == old(m) - {key} && used == old(used) - (if ok then 1 else 0)
      ensures Contents() == old(Contents()) - {key}
      ensures if ok then Unlinked(old(chains), chains, Slot(hash, key, size), key) else chains == old(chains)
    {
      hide Holds;
      hide Ordered;
      hide Count;
      hide PowerOfTwo;
      hide Chain;
      hide Linked;
      hide Entries;
      hide Unlinked;
      if size == 0 {
        NothingHeld(chains, hash, m);
        return false;
      }
      Masked(hash(key), size);
      var h := Bits.And(hash(key), sizemask);
      ok := DeleteIn(h, key);
    }

    /** `dictDelete` in the slot of the key. */
    method DeleteIn(h: nat, key: K) returns (ok: bool)
      requires Valid() && size > 0 && h == Slot(hash, key, size)
      modifies repr
      ensures Valid() && repr == old(repr) && size == old(size) && table == old(table)
      ensures ok == (key in old(m))
      ensures m == old(m) - {key} && used == old(used) - (if ok then 1 else 0)
      ensures forall k | k in m :: m[k].val == old(m[k].val)
      ensures if ok then Unlinked(old(chains), chains, h, key) else chains == old(chains)
    {
      hide Holds;
      hide Ordered;
      hide Count;
      hide PowerOfTwo;
      hide Chain;
      hide Linked;
      hide Entries;
      hide Without;
      hide Unlinked;
      ghost var a: nat;
      ok, a := Unlink(h, key);
      if ok {
        Forget(h, a);
      }
    }

    /** The accounts after an entry was unlinked. */
    method Forget(h: nat, ghost a: nat)
      requires h < |chains| == size && a < |chains[h]| && used == Count(chains) == |m| && used <= size
      requires this in repr && table in repr && (forall k | k in m :: m[k] in repr)
      requires table.Length == size >= DICT_HT_INITIAL_SIZE && PowerOfTwo(size) && sizemask == size - 1
      requires Ordered(chains, hash) && Holds(chains, hash, m)
      requires Linked(table, chains[h := Without(chains[h], a)], 0)
      modifies this`chains, this`m, this`used
      ensures Valid() && Unlinked(old(chains), chains, h, old(chains[h][a].key))
      ensures old(chains[h][a].key) in old(m) && m == old(m) - {old(chains[h][a].key)} && used == old(used) - 1
    {
      hide Holds;
      hide Ordered;
      hide Count;
      hide PowerOfTwo;
      hide Chain;
      hide Without;
      DropEntry(chains, hash, m, h, a);
      DropOrdered(chains, hash, h, a);
      m := m - {chains[h][a].key};
      assert Unlinked(chains, chains[h := Without(chains[h], a)], h, chains[h][a].key);
      chains := chains[h := Without(chains[h], a)];
      used := used - 1;
      EntriesMapped(chains, hash, m);
    }

    /** The loop of `dictDelete`, which unlinks the entry of the key from slot `h`. */
    method Unlink(h: nat, key: K) returns (found: bool, ghost a: nat)
      requires Valid() && size > 0 && h == Slot(hash, key, size)
      modifies table, (set k | k in m :: m[k])`next
      ensures found == (key in m)
      ensures found ==> a < |chains[h]| && chains[h][a].key == key
      ensures found ==> Linked(table, chains[h := Without(chains[h], a)], 0)
      ensures !found ==> Linked(table, chains, 0)
    {
      hide Count;
      hide Holds;
      hide Ordered;
      hide PowerOfTwo;
      InSlot(key);
      var de := table[h];
      var prevde: Entry?<K, V> := null;
      a := 0;
      ghost var es := chains[h];
      while de != null
        invariant a <= |es| && de == (if a < |es| then es[a] else null)
        invariant prevde == if a > 0 then es[a - 1] else null
        invariant Lookup(es[a..], key) == Lookup(es, key)
        invariant forall j | 0 <= j < |chains| :: Chain(table[j], chains[j])
        decreases |es| - a
      {
        if key == de.key {
          EntriesMapped(chains, hash, m);
          Apart(chains, hash, h);
          assert a > 0 ==> chains[h][a - 1] in chains[h] && chains[h][a - 1] in Entries(chains);
          Bypass(table, chains, h, a, prevde, de);
          return true, a;
        }
        prevde := de;
        de := de.next;
        a := a + 1;
      }
      return false, a;
    }

    /** `_dictClear`. `freed` lists the entries freed, in order. */
    method Clear() returns (freed: seq<Entry<K, V>>)
      requires Valid()
      modifies this
      ensures Valid() && fresh(repr - old(repr))
      ensures m == map[] && size == 0 && used == 0
      ensures freed == Flatten(old(chains))
    {
      hide Holds;
      hide Ordered;
      hide PowerOfTwo;
      hide Flatten;
      hide Count;
      freed := FreeAll();
      NoneHeld<K, V>(hash);
      FlattenNothing<K, V>([]);
      table := new Entry?<K, V>[0];
      size, sizemask, used := 0, 0, 0;
      chains, m := [], map[];
      repr := {this, table};
    }

    /** The loops of `_dictClear`, which stop once nothing is in use. */
    method FreeAll() returns (freed: seq<Entry<K, V>>)
      requires Valid()
      modifies this`used
      ensures freed == Flatten(chains) && used == 0
    {
      hide Holds;
      hide Ordered;
      hide PowerOfTwo;
      hide Flatten;
      hide Count;
      freed := [];
      var i := 0;
      assert chains[0..] == chains;
      while i < size && used > 0
        invariant i <= size && used == Count(chains[i..])
        invariant freed + Flatten(chains[i..]) == Flatten(chains)
      {
        FlattenFrom(chains, i);
        ghost var before, later := freed, Flatten(chains[i + 1..]);
        var slot := FreeSlot(table[i], chains[i]);
        freed := freed + slot;
        assert before + (slot + later) == freed + later;
        i := i + 1;
      }
      FlattenCount(chains[i..]);
      if i == size {
        FlattenNothing(chains[i..]);
      }
    }

    /** The inner loop of `_dictClear`. */
    method FreeSlot(head: Entry?<K, V>, ghost es: seq<Entry<K, V>>) returns (freed: seq<Entry<K, V>>)
      requires Chain(head, es) && used >= |es|
      modifies this`used
      ensures freed == es && used == old(used) - |es|
    {
      hide Chain;
      freed := [];
      var he := head;
      ChainStart(head, es);
      ghost var n := 0;
      while he != null
        invariant n <= |es| && he == First(es[n..]) && freed == es[..n] && used == old(used) - n
        decreases |es| - n
      {
        ChainAt(head, es, n);
        var e: Entry<K, V> := he;
        var nextHe := e.next;
        freed := freed + [e];
        used := used - 1;
        he := nextHe;
        n := n + 1;
      }
    }
  }

  // ----- Whole runs against a finite map

  datatype Op<K, V> = Add(key: K, val: V) | Replace(key: K, val: V) | Delete(key: K) | Find(key: K)

  datatype Answer<V> = Status(code: nat) | Value(found: Option<V>)

  const DICT_OK: nat := 0
  const DICT_ERR: nat := 1

  /** What an operation does to a finite map. */
  function Effect<K, V>(c: map<K, V>, op: Op<K, V>): (c': map<K, V>) {
    match op
    case Add(k, v) => if k in c then c else c[k := v]
    case Replace(k, v) => c[k := v]
    case Delete(k) => c - {k}
    case Find(_) => c
  }

  /** What it answers. */
  function Reply<K, V>(c: map<K, V>, op: Op<K, V>): (a: Answer<V>) {
    match op
    case Add(k, _) => Status(if k in c then DICT_ERR else DICT_OK)
    case Replace(k, _) => Status(if k in c then 0 else 1)
    case Delete(k) => Status(if k in c then DICT_OK else DICT_ERR)
    case Find(k) => Value(if k in c then Some(c[k]) else None)
  }

  /** What operations answer right after another, and their return codes: 0 for success and 1 for
      failure, but `dictReplace` returns 1 for a new key. */
  lemma AnswersAfter<K, V>(c: map<K, V>, k: K, v: V, other: K)
    requires other != k
    ensures k !in c ==> Reply(c, Find(k)) == Value(None)
    ensures Reply(Effect(c, Replace(k, v)), Find(k)) == Value(Some(v))
    ensures Reply(Effect(c, Delete(k)), Find(k)) == Value(None)
    ensures Reply(Effect(c, Add(k, v)), Find(k)) == Value(Some(if k in c then c[k] else v))
    ensures Reply(Effect(c, Find(k)), Find(k)) == Reply(c, Find(k))
    ensures forall op: Op<K, V> | op.key == k :: Reply(Effect(c, op), Find(other)) == Reply(c, Find(other))
    ensures Reply(c, Find(k)) == Value(None) ==>
              Reply(c, Add(k, v)) == Status(0) && Reply(c, Replace(k, v)) == Status(1) && Reply(c, Delete(k)) == Status(1)
    ensures Reply(c, Find(k)) != Value(None) ==>
              Reply(c, Add(k, v)) == Status(1) && Reply(c, Replace(k, v)) == Status(0) && Reply(c, Delete(k)) == Status(0)
  {
  }

  ghost function Effects<K, V>(c: map<K, V>, ops: seq<Op<K, V>>): map<K, V> {
    if ops == [] then c else Effect(Effects(c, ops[..|ops| - 1]), ops[|ops| - 1])
  }

  ghost function Replies<K, V>(c: map<K, V>, ops: seq<Op<K, V>>): seq<Answer<V>> {
    if ops == [] then []
    else Replies(c, ops[..|ops| - 1]) + [Reply(Effects(c, ops[..|ops| - 1]), ops[|ops| - 1])]
  }

  lemma EffectsNext<K, V>(c: map<K, V>, ops: seq<Op<K, V>>, i: nat)
    requires i < |ops|
    ensures Effects(c, ops[..i + 1]) == Effect(Effects(c, ops[..i]), ops[i])
    ensures Replies(c, ops[..i + 1]) == Replies(c, ops[..i]) + [Reply(Effects(c, ops[..i]), ops[i])]
  {
    assert ops[..i + 1][..i] == ops[..i];
  }

  /** One call. */
  method Do<K(==, !new), V>(ht: HashTable<K, V>, op: Op<K, V>) returns (a: Answer<V>)
    requires ht.Valid() && (op.Add? || op.Replace? ==> ht.Accepts(op.key))
    modifies ht.repr
    ensures ht.Valid() && fresh(ht.repr - old(ht.repr))
    ensures a == Reply(old(ht.Contents()), op) && ht.Contents() == Effect(old(ht.Contents()), op)
    ensures ht.size == old(ht.size) || ht.size == old(ht.Grown())
  {
    hide HashTable.Valid;
    match op {
      case Add(k, v) =>
        var ok := ht.Add(k, v);
        a := Status(if ok then DICT_OK else DICT_ERR);
      case Replace(k, v) =>
        var added := ht.Replace(k, v);
        a := Status(added);
      case Delete(k) =>
        var ok := ht.Delete(k);
        a := Status(if ok then DICT_OK else DICT_ERR);
      case Find(k) =>
        var he := ht.Find(k);
        a := Value(if he == null then None else Some(he.val));
    }
  }

  /** Any run of operations on a new table behaves as on a finite map, as long as it has
      fewer than 2^30 keys at a time. */
  method Run<K(==, !new), V>(hash: K -> nat, ops: seq<Op<K, V>>) returns (ht: HashTable<K, V>, answers: seq<Answer<V>>)
    requires forall i | 0 <= i <= |ops| :: |Effects<K, V>(map[], ops[..i])| <= INT_MAX / 2
    ensures fresh(ht) && ht.Valid()
    ensures ht.Contents() == Effects(map[], ops) && answers == Replies(map[], ops)
    ensures ht.used == |Effects(map[], ops)|
  {
    hide HashTable.Valid;
    hide HashTable.Contents;
    hide Effect;
    hide Reply;
    ht := new HashTable(hash);
    answers := [];
    for i := 0 to |ops|
      invariant ht.Valid() && fresh(ht.repr) && ht.size <= INT_MAX + 1
      invariant ht.Contents() == Effects(map[], ops[..i]) && answers == Replies(map[], ops[..i])
    {
      ht.UsedIsSize();
      assert |Effects<K, V>(map[], ops[..i])| <= INT_MAX / 2;
      var a := Do(ht, ops[i]);
      answers := answers + [a];
      EffectsNext(map[], ops, i);
    }
    assert ops[..|ops|] == ops;
    ht.UsedIsSize();
  }

  /** `dictIterator`. The ghost field holds what is still to come in the current slot. */
  class Iterator<K(==, !new), V> {
    const ht: HashTable<K, V>
    var index: int
    var entry: Entry?<K, V>
    var nextEntry: Entry?<K, V>
    ghost var rest: seq<Entry<K, V>>

    /** The iterator stands in its table. */
    ghost predicate Positioned()
      reads this, ht, ht.repr
    {
      && ht.Valid() && this !in ht.repr
      && -1 <= index && (index == -1 || index < ht.size <= INT_MAX)
      && (entry == null ==> index == -1)
      && (entry != null ==> index >= 0 && EndsSlot(ht.chains, index, rest) && nextEntry == First(rest))
    }

    /** The entries still to be returned: none if the size of the table is no C `int`. */
    ghost function Todo(): seq<Entry<K, V>>
      requires Positioned()
      reads this, ht, ht.repr
    {
      if ht.size > INT_MAX then [] else (if entry == null then [] else rest) + Flatten(ht.chains[index + 1..])
    }

    /** `dictGetIterator` */
    constructor (ht: HashTable<K, V>)
      requires ht.Valid()
      ensures this.ht == ht && Positioned() && Todo() == if ht.size <= INT_MAX then Flatten(ht.chains) else []
    {
      hide Holds;
      hide Ordered;
      hide Count;
      hide PowerOfTwo;
      hide Flatten;
      hide Linked;
      hide HashTable.Valid;
      this.ht := ht;
      index := -1;
      entry, nextEntry := null, null;
      rest := [];
      new;
      FlattenAll(ht.chains);
    }

    /** The first half of the loop in `dictNext`: moves to the entry `r'` starts with, or
        past the table. */
    method MoveOn(ghost b: Buckets<K, V>, ghost r: seq<Entry<K, V>>) returns (ghost r': seq<Entry<K, V>>)
      requires ht.Valid() && this !in ht.repr && ht.chains == b
      requires -1 <= index && (index == -1 || index < |b| <= INT_MAX)
      requires ht.size > INT_MAX ==> entry == null
      requires entry != null ==> EndsSlot(b, index, r) && nextEntry == First(r)
      modifies this
      ensures ht.size > INT_MAX ==> index >= 0 && entry == null
      ensures ht.size <= INT_MAX ==>
                && old(index) + (if old(entry) == null then 1 else 0) == index <= |b|
                && (index < |b| ==> EndsSlot(b, index, r') && entry == First(r'))
                && (index == |b| ==> entry == null && r' == [])
                && (if old(entry) == null then [] else r) + Flatten(b[old(index) + 1..])
                == if index == |b| then [] else r' + Flatten(b[index + 1..])
    {
      hide Flatten;
      hide EndsSlot;
      hide Linked;
      hide First;
      hide HashTable.Valid;
      ht.Shape();
      r' := r;
      if entry == null {
        index := index + 1;
        if index >= ToInt32(ht.size) {
          if ht.size <= INT_MAX {
            FlattenNothing(b[index..]);
          }
          r' := [];
        } else {
          ht.FirstInSlot(index);
          FlattenFrom(b, index);
          entry := ht.table[index];
          r' := b[index];
        }
      } else {
        entry := nextEntry;
      }
    }

    /** The second half of that loop: hands out the entry `r` starts with. */
    method Give(ghost b: Buckets<K, V>, ghost r: seq<Entry<K, V>>) returns (e: Entry<K, V>)
      requires ht.Valid() && this !in ht.repr && ht.chains == b
      requires 0 <= index < ht.size <= INT_MAX && entry != null && EndsSlot(b, index, r) && entry == First(r)
      modifies this
      ensures entry == e && Positioned() && JustBefore(b, index, rest, e)
      ensures var todo := r + Flatten(b[old(index) + 1..]);
              todo != [] && todo[0] == e && Todo() == todo[1..]
    {
      hide Flatten;
      hide EndsSlot;
      hide JustBefore;
      hide First;
      hide HashTable.Valid;
      ht.Shape();
      ht.NextInSlot(index, r, entry, Flatten(b[index + 1..]));
      // the caller may delete the entry returned here
      nextEntry := entry.next;
      rest := r[1..];
      e := entry;
    }

    /** `dictNext` */
    method Next() returns (e: Entry?<K, V>)
      requires Positioned()
      modifies this
      ensures old(Todo()) == [] ==> e == null
      ensures old(Todo()) != [] ==> e == old(Todo())[0] && Positioned() && Todo() == old(Todo())[1..]
      ensures e != null ==> entry == e && JustBefore(ht.chains, index, rest, e)
    {
      hide Flatten;
      hide EndsSlot;
      hide JustBefore;
      hide Linked;
      hide First;
      hide HashTable.Valid;
      hide ToInt32;
      ghost var todo, b, r := Todo(), ht.chains, rest;
      ht.Shape();
      while true
        invariant ht.Valid() && ht.chains == b && |b| == ht.size
        invariant -1 <= index && (index == -1 || index < |b| <= INT_MAX) && (|b| > INT_MAX ==> entry == null)
        invariant entry != null ==> EndsSlot(b, index, r) && nextEntry == First(r)
        invariant todo == if |b| > INT_MAX then [] else (if entry == null then [] else r) + Flatten(b[index + 1..])
        decreases |b| - index, if entry == null then 0 else 1
      {
        r := MoveOn(b, r);
        if index >= ToInt32(ht.size) {
          break;
        }
        if entry != null {
          e := Give(b, r);
          return;
        }
        NothingFirst(r);
      }
      return null;
    }
  }

  /** `rest` is the end of slot `i`. */
  ghost predicate EndsSlot<K, V>(b: Buckets<K, V>, i: int, rest: seq<Entry<K, V>>) {
    && 0 <= i < |b| && |rest| <= |b[i]|
    && b[i][|b[i]| - |rest|..] == rest
  }

  /** `e` comes right before `rest` in slot `i`. */
  ghost predicate JustBefore<K, V>(b: Buckets<K, V>, i: int, rest: seq<Entry<K, V>>, e: Entry<K, V>) {
    && EndsSlot(b, i, rest) && |rest| < |b[i]|
    && b[i][|b[i]| - |rest| - 1] == e
  }

  ghost function First<K, V>(es: seq<Entry<K, V>>): Entry?<K, V> {
    if es == [] then null else es[0]
  }

  lemma NothingFirst<K, V>(rest: seq<Entry<K, V>>)
    requires First(rest) == null
    ensures rest == []
  {
  }

  /** Deleting the entry just returned leaves what is still to come. */
  lemma DeleteBehind<K, V>(b: Buckets<K, V>, hash: K -> nat, i: int, rest: seq<Entry<K, V>>, e: Entry<K, V>,
                           h: nat, a: nat)
    requires Ordered(b, hash) && JustBefore(b, i, rest, e)
    requires h == Slot(hash, e.key, |b|) && a < |b[h]| && b[h][a].key == e.key
    ensures var b' := b[h := Without(b[h], a)];
            EndsSlot(b', i, rest) && b'[i + 1..] == b[i + 1..]
  {
    assert e in b[i];
    assert h == i && a == |b[i]| - |rest| - 1;
  }

  /** The keys of the entries in `seen` that `drop` picks. */
  ghost function Dropped<K, V>(seen: seq<Entry<K, V>>, drop: K -> bool): (ks: set<K>) {
    set e | e in seen && drop(e.key) :: e.key
  }

  lemma DroppedNext<K, V>(m: map<K, Entry<K, V>>, seen: seq<Entry<K, V>>, todo: seq<Entry<K, V>>, drop: K -> bool)
    requires todo != []
    ensures var e := todo[0];
            && seen + todo == seen + [e] + todo[1..]
            && m - Dropped(seen + [e], drop) == m - Dropped(seen, drop) - if drop(e.key) then {e.key} else {}
  {
    assert todo == [todo[0]] + todo[1..];
  }

  lemma DroppedNone<K, V>(m: map<K, Entry<K, V>>, drop: K -> bool)
    ensures m - Dropped<K, V>([], drop) == m
  {
  }

  /** A full listing drops every key of the table that `drop` picks. */
  lemma DroppedAll<K(!new), V>(b: Buckets<K, V>, hash: K -> nat, m: map<K, Entry<K, V>>, drop: K -> bool)
    requires Ordered(b, hash) && Holds(b, hash, m)
    ensures m - Dropped(Flatten(b), drop) == map k | k in m && !drop(k) :: m[k]
  {
    assert b[0..] == b;
    ListedOnce(b, hash, 0);
    forall k | k in m
      ensures k in Dropped(Flatten(b), drop) <==> drop(k)
    {
      assert (if |b| == 0 then None else Lookup(b[Slot(hash, k, |b|)], k)) == Some(m[k]);
    }
  }

  /** The caller deletes the entry it was just given. */
  method DeleteReturned<K(==, !new), V>(iter: Iterator<K, V>, e: Entry<K, V>)
    requires iter.Positioned() && JustBefore(iter.ht.chains, iter.index, iter.rest, e)
    requires iter.entry == e
    modifies iter.ht.repr
    ensures iter.Positioned() && iter.Todo() == old(iter.Todo())
    ensures iter.ht.m == old(iter.ht.m) - {e.key} && iter.ht.repr == old(iter.ht.repr)
    ensures iter.ht.size == old(iter.ht.size)
  {
    hide Without;
    hide Holds;
    hide Count;
    hide PowerOfTwo;
    hide Flatten;
    hide Linked;
    hide Slot;
    var ht := iter.ht;
    ghost var b := ht.chains;
    assert e in b[iter.index];
    InBucket(b, ht.hash, ht.m, iter.index, e);
    var ok := ht.Delete(e.key);
    ghost var h := Slot(ht.hash, e.key, ht.size);
    ghost var a: nat :| a < |b[h]| && b[h][a].key == e.key && ht.chains == b[h := Without(b[h], a)];
    DeleteBehind(b, ht.hash, iter.index, iter.rest, e, h, a);
  }

  /** The caller looks at an entry, perhaps deletes it, and asks for the next one. */
  method Visit<K(==, !new), V>(iter: Iterator<K, V>, e: Entry<K, V>, drop: K -> bool) returns (next: Entry?<K, V>)
    requires iter.Positioned() && JustBefore(iter.ht.chains, iter.index, iter.rest, e)
    requires iter.entry == e
    modifies iter, iter.ht.repr
    ensures iter.ht.Valid() && iter.ht.repr == old(iter.ht.repr) && iter.ht.size == old(iter.ht.size)
    ensures iter.ht.m == old(iter.ht.m) - if drop(e.key) then {e.key} else {}
    ensures old(iter.Todo()) == [] ==> next == null
    ensures old(iter.Todo()) != [] ==>
              && next == old(iter.Todo())[0] && iter.entry == next
              && iter.Positioned() && iter.Todo() == old(iter.Todo())[1..]
              && JustBefore(iter.ht.chains, iter.index, iter.rest, next)
  {
    hide Flatten;
    hide HashTable.Valid;
    hide EndsSlot;
    hide JustBefore;
    if drop(e.key) {
      DeleteReturned(iter, e);
    }
    next := iter.Next();
  }

  /** Visits every entry, as a caller of `dictNext` does, and deletes those whose
      key `drop` picks before asking for the next one. Nothing is visited if the size of the
      table is no C `int`. */
  method Sweep<K(==, !new), V>(ht: HashTable<K, V>, drop: K -> bool) returns (seen: seq<Entry<K, V>>)
    requires ht.Valid()
    modifies ht.repr
    ensures ht.Valid() && ht.size == old(ht.size)
    ensures ht.size <= INT_MAX ==>
              seen == Flatten(old(ht.chains)) && ht.m == map k | k in old(ht.m) && !drop(k) :: old(ht.m)[k]
    ensures ht.size > INT_MAX ==> seen == [] && ht.m == old(ht.m)
  {
    hide Flatten;
    hide Dropped;
    hide HashTable.Valid;
    hide EndsSlot;
    hide JustBefore;
    hide Iterator.Todo;
    hide Iterator.Positioned;
    ht.Listing(drop);
    DroppedNone(ht.m, drop);
    var iter := new Iterator(ht);
    seen := [];
    ghost var todo := iter.Todo();
    ghost var all := todo;
    var entry := iter.Next();
    while entry != null
      invariant ht.Valid() && ht.repr == old(ht.repr) && ht.size == old(ht.size) && iter.ht == ht && fresh(iter)
      invariant entry != null ==>
                  && iter.Positioned() && iter.entry == entry && JustBefore(ht.chains, iter.index, iter.rest, entry)
                  && todo != [] && entry == todo[0] && iter.Todo() == todo[1..]
      invariant entry == null ==> todo == []
      invariant all == seen + todo
      invariant ht.m == old(ht.m) - Dropped(seen, drop)
      decreases todo
    {
      var e: Entry<K, V> := entry;
      DroppedNext(old(ht.m), seen, todo, drop);
      seen := seen + [e];
      entry := Visit(iter, e, drop);
      todo := todo[1..];
    }
  }

  /** Halfway through `dictExpand`: `left` is what the old table still holds and
      `moved` what the new one does. */
  ghost predicate Parted<K(!new), V>(hash: K -> nat, left: Buckets<K, V>, moved: Buckets<K, V>,
                         mLeft: map<K, Entry<K, V>>, mMoved: map<K, Entry<K, V>>, m: map<K, Entry<K, V>>)
  {
    && Ordered(left, hash) && Holds(left, hash, mLeft)
    && Ordered(moved, hash) && Holds(moved, hash, mMoved)
    && mLeft.Keys !! mMoved.Keys && mLeft + mMoved == m
  }

  /** Moving the first entry of an old slot to the front of its new one. */
  lemma MoveEntry<K(!new), V>(hash: K -> nat, left: Buckets<K, V>, moved: Buckets<K, V>,
                        mLeft: map<K, Entry<K, V>>, mMoved: map<K, Entry<K, V>>, m: map<K, Entry<K, V>>, i: nat)
    requires Parted(hash, left, moved, mLeft, mMoved, m)
    requires i < |left| && left[i] != [] && |moved| > 0
    ensures var e := left[i][0];
            var h := Slot(hash, e.key, |moved|);
            var left', moved' := left[i := left[i][1..]], moved[h := [e] + moved[h]];
            && e.key in m && m[e.key] == e
            && Parted(hash, left', moved', mLeft - {e.key}, mMoved[e.key := e], m)
            && Count(left') == Count(left) - 1 && Count(moved') == Count(moved) + 1
            && (forall j | 0 <= j < |moved| :: e !in moved[j])
            && e !in left[i][1..] && (forall j | 0 <= j < |left| && j != i :: e !in left[j])
  {
    hide Lookup;
    hide Holds;
    hide Count;
    var e := left[i][0];
    assert Without(left[i], 0) == left[i][1..];
    DropEntry(left, hash, mLeft, i, 0);
    DropOrdered(left, hash, i, 0);
    PushEntry(moved, hash, mMoved, e, Slot(hash, e.key, |moved|));
    forall j | 0 <= j < |moved|
      ensures e !in moved[j]
    {
      if e in moved[j] {
        InBucket(moved, hash, mMoved, j, e);
        assert false;
      }
    }
    assert e in left[i];
  }

  lemma AllMoved<K(!new), V>(hash: K -> nat, left: Buckets<K, V>, moved: Buckets<K, V>,
                       mLeft: map<K, Entry<K, V>>, mMoved: map<K, Entry<K, V>>, m: map<K, Entry<K, V>>)
    requires Parted(hash, left, moved, mLeft, mMoved, m) && Count(left) == 0
    ensures Ordered(moved, hash) && Holds(moved, hash, m)
    ensures forall e | e in Entries(moved) :: e.key in m && m[e.key] == e
  {
    hide Lookup;
    NothingHeld(left, hash, mLeft);
    assert mMoved == m;
    EntriesMapped(moved, hash, m);
  }

  lemma KeysMatch<K(!new), V>(b: Buckets<K, V>, hash: K -> nat, m: map<K, Entry<K, V>>)
    requires Holds(b, hash, m)
    ensures forall k | k in m :: m[k].key == k
  {
    hide Lookup;
    forall k | k in m
      ensures m[k].key == k
    {
      assert (if |b| == 0 then None else Lookup(b[Slot(hash, k, |b|)], k)) == Some(m[k]);
    }
  }

  /** Only entries of the map are in the buckets. */
  lemma EntriesMapped<K(!new), V>(b: Buckets<K, V>, hash: K -> nat, m: map<K, Entry<K, V>>)
    requires Ordered(b, hash) && Holds(b, hash, m)
    ensures forall e | e in Entries(b) :: e.key in m && m[e.key] == e
  {
    forall e | e in Entries(b)
      ensures e.key in m && m[e.key] == e
    {
      var i :| 0 <= i < |b| && e in b[i];
      InBucket(b, hash, m, i, e);
    }
  }

  ghost function EmptyBuckets<K, V>(n: nat): Buckets<K, V> {
    seq(n, _ => [])
  }

  lemma NoneHeld<K(!new), V>(hash: K -> nat)
    ensures Ordered<K, V>([], hash) && Holds<K, V>([], hash, map[])
  {
  }

  lemma NothingMoved<K(!new), V>(n: array<Entry?<K, V>>, moved: Buckets<K, V>, left: Buckets<K, V>,
                                 hash: K -> nat, m: map<K, Entry<K, V>>)
    requires forall i | 0 <= i < |moved| :: moved[i] == []
    requires n.Length == |moved| && forall i | 0 <= i < |moved| :: n[i] == null
    requires Ordered(left, hash) && Holds(left, hash, m)
    ensures Parted(hash, left, moved, m, map[], m) && Linked(n, moved, 0) && Count(moved) == 0
  {
    CountZero(moved);
    assert m + map[] == m;
  }
}

/** Blocks: the node images of dag.c, and the store that holds them. */
module Dag {
  import opened Bytes
  import opened Files
  import opened Sha256Spec
  import Memory

  const MAX_FILE_LENGTH: nat := 102400000
  const BLOCK_LIMIT: nat := 256000
  const MAX_LINKS: nat := 400
  const FILENAME_SIZE: nat := 256
  const NAME_MAX: nat := 255
  /** `CID_LENGTH + 1` */
  const LINK_SIZE: nat := 115
  /** `sizeof(DAGNode)` */
  const NODE_SIZE: nat := 302268

  /** "null" */
  const NULL_NAME: seq<byte> := [110, 117, 108, 108]
  /** ".dat" */
  const DAT: seq<byte> := [46, 100, 97, 116]

  // ----- Fields of a node

  /** A C string in a field of `n` zeroed bytes. */
  function StrField(s: seq<byte>, n: nat): (field: seq<byte>)
    requires |s| <= n
    ensures |field| == n
  {
    s + Memory.Zeros(n - |s|)
  }

  lemma FieldStarts(s: seq<byte>, n: nat)
    requires |s| <= n
    ensures StrField(s, n)[..|s|] == s
  {
  }

  /** What `strcpy` leaves in a field. */
  function StrCpy(field: seq<byte>, s: seq<byte>): (r: seq<byte>)
    requires |s| < |field|
    ensures |r| == |field|
  {
    s + [0] + field[|s| + 1..]
  }

  /** The C string in a field. */
  function CStr(field: seq<byte>): (s: seq<byte>) {
    if field == [] || field[0] == 0 then [] else [field[0]] + CStr(field[1..])
  }

  lemma {:induction false} CStrOfField(s: seq<byte>, n: nat)
    requires 0 !in s && |s| < n
    ensures CStr(StrField(s, n)) == s && 0 in StrField(s, n)
  {
    if s == [] {
      assert StrField(s, n)[0] == 0;
    } else {
      assert StrField(s, n)[1..] == StrField(s[1..], n - 1);
      CStrOfField(s[1..], n - 1);
      assert StrField(s, n)[|s|] == 0;
    }
  }

  lemma StrCpyIsField(s: seq<byte>, n: nat)
    requires |s| < n
    ensures StrCpy(Memory.Zeros(n), s) == StrField(s, n)
  {
  }

  lemma NothingCopied(n: nat)
    ensures StrField([], n) == Memory.Zeros(n)
  {
  }

  lemma NothingYet(s: seq<byte>)
    requires forall k | 0 <= k < |s| :: s[k] == 0
    ensures s == StrField([], |s|)
  {
  }

  /** A 32-bit `int` in memory, least significant byte first. */
  function Le32(x: int): (s: seq<byte>)
    ensures |s| == 4
  {
    var m := x % TWO_32;
    [m % 256, m / 256 % 256, m / 65536 % 256, m / 16777216]
  }

  function FromLe32(s: seq<byte>): (x: int)
    requires |s| == 4
  {
    ToInt32(s[0] as int + 256 * s[1] as int + 65536 * s[2] as int + 16777216 * s[3] as int)
  }

  /** The four bytes of a number make it up. */
  lemma FourBytes(m: nat)
    ensures m == m % 256 + 256 * (m / 256 % 256) + 65536 * (m / 65536 % 256) + 16777216 * (m / 16777216)
  {
    var q, r := m / 256, m / 65536;
    assert q / 256 == r && r / 256 == m / 16777216;
    assert m == m % 256 + 256 * q;
    assert q == q % 256 + 256 * r;
    assert r == r % 256 + 256 * (m / 16777216);
  }

  lemma Le32RoundTrip(x: int)
    requires -INT_MAX - 1 <= x <= INT_MAX
    ensures FromLe32(Le32(x)) == x
  {
    hide ToInt32;
    FourBytes(x % TWO_32);
    SameInt(x);
    assert FromLe32(Le32(x)) == ToInt32(x % TWO_32);
  }

  lemma SameInt(x: int)
    requires -INT_MAX - 1 <= x <= INT_MAX
    ensures ToInt32(x % TWO_32) == x
  {
    assert x % TWO_32 == if x < 0 then x + TWO_32 else x;
  }

  // ----- Nodes and their images

  /** `DAGNode` */
  datatype DAGNode = DAGNode(kind: int, filename: seq<byte>, nbLinks: int, links: seq<seq<byte>>,
                             data: seq<byte>, size: int)

  ghost predicate WellFormed(n: DAGNode) {
    && -INT_MAX - 1 <= n.kind <= INT_MAX && |n.filename| == FILENAME_SIZE
    && -INT_MAX - 1 <= n.nbLinks <= INT_MAX
    && |n.links| == MAX_LINKS && (forall i | 0 <= i < MAX_LINKS :: |n.links[i]| == LINK_SIZE)
    && |n.data| == BLOCK_LIMIT && -INT_MAX - 1 <= n.size <= INT_MAX
  }

  function Flat(links: seq<seq<byte>>): (s: seq<byte>) {
    if links == [] then [] else Flat(links[..|links| - 1]) + links[|links| - 1]
  }

  lemma {:induction false} FlatLength(links: seq<seq<byte>>, n: nat)
    requires forall i | 0 <= i < |links| :: |links[i]| == n
    ensures |Flat(links)| == n * |links|
  {
    if links != [] {
      FlatLength(links[..|links| - 1], n);
      assert n * |links| == n * (|links| - 1) + n;
    }
  }

  lemma {:induction false} FlatGrows(links: seq<seq<byte>>, i: nat)
    requires i < |links|
    ensures |Flat(links[..i + 1])| <= |Flat(links)|
  {
    if i + 1 < |links| {
      FlatGrows(links[..|links| - 1], i);
      assert links[..|links| - 1][..i + 1] == links[..i + 1];
    } else {
      assert links[..i + 1] == links;
    }
  }

  lemma {:induction false} FlatSlice(links: seq<seq<byte>>, n: nat, i: nat)
    requires forall j | 0 <= j < |links| :: |links[j]| == n
    requires i < |links|
    ensures 0 <= n * i <= n * i + n <= |Flat(links)| == n * |links|
    ensures Flat(links)[n * i..n * i + n] == links[i]
  {
    var last := |links| - 1;
    FlatLength(links, n);
    FlatLength(links[..last], n);
    if i < last {
      FlatSlice(links[..last], n, i);
      assert Flat(links)[n * i..n * i + n] == Flat(links[..last])[n * i..n * i + n];
    }
  }

  /** The bytes of a node in memory, which `fwrite` stores. */
  function Image(n: DAGNode): (image: seq<byte>) {
    Le32(n.kind) + n.filename + Le32(n.nbLinks) + Flat(n.links) + n.data + Le32(n.size)
  }

  /** The node that given bytes stand for. */
  function Decode(image: seq<byte>): (n: DAGNode)
    requires |image| == NODE_SIZE
    ensures WellFormed(n)
  {
    DAGNode(FromLe32(image[..4]), image[4..260], FromLe32(image[260..264]),
            seq(MAX_LINKS, i requires 0 <= i < MAX_LINKS => image[264 + LINK_SIZE * i..264 + LINK_SIZE * i + LINK_SIZE]),
            image[46264..302264], FromLe32(image[302264..]))
  }

  /** What `fread` puts into a zeroed node. */
  function Fread(file: seq<byte>): (image: seq<byte>)
    ensures |image| == NODE_SIZE
  {
    if |file| >= NODE_SIZE then file[..NODE_SIZE] else file + Memory.Zeros(NODE_SIZE - |file|)
  }

  lemma Pieces(a: seq<byte>, b: seq<byte>, c: seq<byte>, d: seq<byte>, e: seq<byte>, f: seq<byte>)
    ensures var s := a + b + c + d + e + f;
            var p, q, r := |a| + |b|, |a| + |b| + |c|, |a| + |b| + |c| + |d|;
            && |s| == r + |e| + |f|
            && s[..|a|] == a && s[|a|..p] == b && s[p..q] == c && s[q..r] == d && s[r..r + |e|] == e && s[r + |e|..] == f
  {
  }

  lemma SubSlice(s: seq<byte>, q: nat, r: nat, i: nat, j: nat)
    requires q <= r <= |s| && i <= j <= r - q
    ensures s[q..r][i..j] == s[q + i..q + j]
  {
    var t := s[q..r][i..j];
    forall k | 0 <= k < j - i
      ensures t[k] == s[q + i..q + j][k]
    {
      assert t[k] == s[q..r][i + k];
    }
  }

  /** Reading an image gives back the node, so images tell nodes apart. */
  lemma DecodeImage(n: DAGNode)
    requires WellFormed(n)
    ensures |Image(n)| == NODE_SIZE && Decode(Image(n)) == n && Fread(Image(n)) == Image(n)
  {
    hide Flat;
    hide Le32;
    hide FromLe32;
    var image := Image(n);
    FlatLength(n.links, LINK_SIZE);
    Pieces(Le32(n.kind), n.filename, Le32(n.nbLinks), Flat(n.links), n.data, Le32(n.size));
    Le32RoundTrip(n.kind);
    Le32RoundTrip(n.nbLinks);
    Le32RoundTrip(n.size);
    forall i | 0 <= i < MAX_LINKS
      ensures image[264 + LINK_SIZE * i..264 + LINK_SIZE * i + LINK_SIZE] == n.links[i]
    {
      FlatSlice(n.links, LINK_SIZE, i);
      SubSlice(image, 264, 46264, LINK_SIZE * i, LINK_SIZE * i + LINK_SIZE);
    }
    assert Decode(image).links == n.links;
  }

  /** The number that four bytes of an image are, least significant first. */
  ghost function NumberAt(image: seq<byte>, at: nat): (x: int)
    requires at + 4 <= |image|
  {
    image[at] as int + 0x100 * image[at + 1] as int + 0x1_0000 * image[at + 2] as int + 0x100_0000 * image[at + 3] as int
  }

  lemma Le32Number(x: nat)
    requires x <= INT_MAX
    ensures NumberAt(Le32(x), 0) == x
  {
    FourBytes(x);
    assert x % TWO_32 == x;
  }

  lemma NumberInside(image: seq<byte>, at: nat, x: nat)
    requires at + 4 <= |image| && x <= INT_MAX && image[at..at + 4] == Le32(x)
    ensures NumberAt(image, at) == x
  {
    hide Le32;
    Le32Number(x);
    assert image[at] == Le32(x)[0] && image[at + 1] == Le32(x)[1] && image[at + 2] == Le32(x)[2] && image[at + 3] == Le32(x)[3];
  }

  /** Where the fields of a node are in its 302268 bytes. */
  lemma ImageLayout(n: DAGNode, j: nat)
    requires WellFormed(n) && n.kind >= 0 && n.nbLinks >= 0 && n.size >= 0 && j < 400
    ensures |Image(n)| == 302268
    ensures NumberAt(Image(n), 0) == n.kind && NumberAt(Image(n), 260) == n.nbLinks && NumberAt(Image(n), 302264) == n.size
    ensures Image(n)[4..260] == n.filename && Image(n)[264 + 115 * j..379 + 115 * j] == n.links[j]
    ensures Image(n)[46264..302264] == n.data
  {
    hide Flat;
    hide Le32;
    hide NumberAt;
    var image := Image(n);
    FlatLength(n.links, LINK_SIZE);
    Pieces(Le32(n.kind), n.filename, Le32(n.nbLinks), Flat(n.links), n.data, Le32(n.size));
    NumberInside(image, 0, n.kind);
    NumberInside(image, 260, n.nbLinks);
    NumberInside(image, 302264, n.size);
    FlatSlice(n.links, LINK_SIZE, j);
    SubSlice(image, 264, 46264, LINK_SIZE * j, LINK_SIZE * j + LINK_SIZE);
  }

  // ----- Chunks

  function Min(a: nat, b: nat): (m: nat) {
    if a < b then a else b
  }

  /** The part of a file that goes into block `i`. */
  function Chunk(data: seq<byte>, i: nat): (c: seq<byte>)
    ensures |c| <= BLOCK_LIMIT
  {
    data[Min(i * BLOCK_LIMIT, |data|)..Min((i + 1) * BLOCK_LIMIT, |data|)]
  }

  /** `get_number_of_blocks` */
  function NumberOfBlocks(size: nat): (n: nat) {
    size / BLOCK_LIMIT + 1
  }

  function Chunks(data: seq<byte>, k: nat): (cs: seq<seq<byte>>) {
    seq(k, i requires 0 <= i => Chunk(data, i))
  }

  /** The first `k` chunks put together are a prefix of the file. */
  lemma {:induction false} Reassembled(data: seq<byte>, k: nat)
    ensures Flat(Chunks(data, k)) == data[..Min(k * BLOCK_LIMIT, |data|)]
  {
    if k > 0 {
      Reassembled(data, k - 1);
      assert Chunks(data, k)[..k - 1] == Chunks(data, k - 1);
      var p, q := Min((k - 1) * BLOCK_LIMIT, |data|), Min(k * BLOCK_LIMIT, |data|);
      assert data[..p] + data[p..q] == data[..q];
    }
  }

  /** All blocks but the last are full, the last holds the remainder, perhaps nothing,
      and together they are the file. */
  lemma ChunksOfFile(data: seq<byte>)
    ensures var nb := NumberOfBlocks(|data|);
            && (forall i | 0 <= i < nb - 1 :: |Chunk(data, i)| == BLOCK_LIMIT)
            && |Chunk(data, nb - 1)| == |data| % BLOCK_LIMIT
            && Flat(Chunks(data, nb)) == data
  {
    var nb := NumberOfBlocks(|data|);
    Reassembled(data, nb);
    assert |data| < nb * BLOCK_LIMIT;
    forall i | 0 <= i < nb - 1
      ensures |Chunk(data, i)| == BLOCK_LIMIT
    {
      assert (i + 1) * BLOCK_LIMIT <= (nb - 1) * BLOCK_LIMIT <= |data|;
    }
  }

  /** The nodes of unused links. */
  function EmptyLinks(): (links: seq<seq<byte>>)
    ensures |links| == MAX_LINKS && forall i | 0 <= i < MAX_LINKS :: links[i] == Memory.Zeros(LINK_SIZE)
  {
    seq(MAX_LINKS, _ => Memory.Zeros(LINK_SIZE))
  }

  /** The node of a block of data. */
  function ChunkNode(c: seq<byte>): (n: DAGNode)
    requires |c| <= BLOCK_LIMIT
    ensures WellFormed(n)
  {
    DAGNode(1, StrField(NULL_NAME, FILENAME_SIZE), 0, EmptyLinks(), StrField(c, BLOCK_LIMIT), |c|)
  }

  /** Blocks of different data have different images. */
  lemma ChunkImages(c: seq<byte>, d: seq<byte>)
    requires |c| <= BLOCK_LIMIT && |d| <= BLOCK_LIMIT && Image(ChunkNode(c)) == Image(ChunkNode(d))
    ensures c == d
  {
    hide Image;
    hide Decode;
    hide EmptyLinks;
    DecodeImage(ChunkNode(c));
    DecodeImage(ChunkNode(d));
    FieldStarts(c, BLOCK_LIMIT);
    FieldStarts(d, BLOCK_LIMIT);
  }

  /** The identifiers of the first `k` blocks of a file. */
  ghost function Links(data: seq<byte>, k: nat): (links: seq<seq<byte>>)
    ensures |links| == k
  {
    seq(k, i requires 0 <= i => Cid(Image(ChunkNode(Chunk(data, i)))))
  }

  function LinkField(links: seq<seq<byte>>, i: nat): (field: seq<byte>)
    requires forall i | 0 <= i < |links| :: |links[i]| < LINK_SIZE
    ensures |field| == LINK_SIZE
  {
    StrField(if i < |links| then links[i] else [], LINK_SIZE)
  }

  function LinkFields(links: seq<seq<byte>>): (fields: seq<seq<byte>>)
    requires forall i | 0 <= i < |links| :: |links[i]| < LINK_SIZE
    ensures |fields| == MAX_LINKS && forall i | 0 <= i < MAX_LINKS :: fields[i] == LinkField(links, i)
  {
    seq(MAX_LINKS, i requires 0 <= i && forall i | 0 <= i < |links| :: |links[i]| < LINK_SIZE => LinkField(links, i))
  }

  /** The node of a file: its name, its length and its blocks, of which at most MAX_LINKS fit. */
  function ParentNode(filename: seq<byte>, links: seq<seq<byte>>, size: nat): (n: DAGNode)
    requires |filename| < FILENAME_SIZE && size <= MAX_FILE_LENGTH
    requires |links| <= INT_MAX && forall i | 0 <= i < |links| :: |links[i]| < LINK_SIZE
    ensures WellFormed(n)
  {
    DAGNode(2, StrField(filename, FILENAME_SIZE), |links|, LinkFields(links), Memory.Zeros(BLOCK_LIMIT), size)
  }

  /** `nb_links * CID_LENGTH + NAME_MAX`, where CID_LENGTH is the text `113 + 1`. */
  function ResultSize(nbLinks: nat): nat {
    nbLinks * ENCODED_HASH_LENGTH + 1 + NAME_MAX
  }

  /** What the name of a parent block is the digest of. */
  function NamingString(filename: seq<byte>, links: seq<seq<byte>>): (s: seq<byte>)
    requires |filename| + |Flat(links)| <= ResultSize(|links|)
  {
    StrField(filename + Flat(links), ResultSize(|links|))
  }

  // ----- The store

  /** The registry, from identifiers to block names, and the block files. */
  datatype World = World(registry: map<seq<byte>, seq<byte>>, files: map<seq<byte>, Contents>)

  /** Storing a node image under the name made from `base`. */
  ghost function Put(w: World, image: Contents, base: seq<byte>): World {
    var name := BlockName(base) + DAT;
    World(w.registry[Cid(image) := name], w.files[name := image])
  }

  /** The store when a file that may be one of its block files has been written. */
  function Output(w: World, target: Option<seq<byte>>, content: Contents): World {
    match target
    case None => w
    case Some(name) => w.(files := w.files[name := content])
  }

  /** Whether the file registered for an identifier is there and matches it. */
  ghost predicate Stored(w: World, cid: seq<byte>) {
    && cid in w.registry && w.registry[cid] != NULL_NAME
    && w.registry[cid] in w.files && Cid(w.files[w.registry[cid]]) == cid
  }

  /** The store when a call has given up on an identifier: a registered file that is missing or does
      not match is forgotten, and one that does not match is removed. */
  ghost function Purged(w: World, cid: seq<byte>): World {
    if cid !in w.registry || w.registry[cid] == [110, 117, 108, 108] then w
    else World(w.registry - {cid}, w.files - {w.registry[cid]})
  }

  /** The image of block `i` of a file. */
  function ChunkImage(data: seq<byte>, i: nat): (image: Contents)
    ensures |image| == NODE_SIZE
  {
    DecodeImage(ChunkNode(Chunk(data, i)));
    Image(ChunkNode(Chunk(data, i)))
  }

  lemma ImageOfChunk(data: seq<byte>, i: nat)
    ensures ChunkImage(data, i) == Image(ChunkNode(Chunk(data, i)))
  {
  }

  /** A node image and what its name is made from. */
  datatype Block = Block(image: Contents, base: seq<byte>)

  /** The first `k` blocks of the data of a file. */
  function ChunkBlocks(data: seq<byte>, k: nat): (bs: seq<Block>)
    ensures |bs| == k && forall i | 0 <= i < k :: bs[i] == Block(ChunkImage(data, i), Chunk(data, i))
  {
    seq(k, i requires 0 <= i => Block(ChunkImage(data, i), Chunk(data, i)))
  }

  /** The store after blocks were written one after the other. */
  ghost function PutAll(w: World, bs: seq<Block>): World {
    if bs == [] then w
    else
      var last := bs[|bs| - 1];
      Put(PutAll(w, bs[..|bs| - 1]), last.image, last.base)
  }

  lemma PutNext(w: World, bs: seq<Block>, b: Block)
    ensures PutAll(w, bs + [b]) == Put(PutAll(w, bs), b.image, b.base)
  {
    hide Put;
    assert (bs + [b])[..|bs|] == bs;
  }

  lemma {:induction false} PutMore(w: World, bs: seq<Block>, more: seq<Block>)
    ensures PutAll(w, bs + more) == PutAll(PutAll(w, bs), more)
  {
    hide Put;
    if more == [] {
      assert bs + more == bs;
    } else {
      var init := more[..|more| - 1];
      PutMore(w, bs, init);
      assert (bs + more)[..|bs + more| - 1] == bs + init;
    }
  }

  /** The registry and the block directory of this machine. The worlds in `script` are
      what others, peers included, will have made of them: one for each call of
      `read_block` and one for each call of `look_for_block`. */
  class Store {
    var registry: map<seq<byte>, seq<byte>>
    var files: map<seq<byte>, Contents>
    var script: seq<World>
    /** The block file, if any, that a file name denotes in the file system. */
    const blockOf: seq<byte> -> Option<seq<byte>>

    constructor (w: World, script: seq<World>, blockOf: seq<byte> -> Option<seq<byte>>)
      ensures Now() == w && this.script == script && this.blockOf == blockOf
    {
      registry, files := w.registry, w.files;
      this.script, this.blockOf := script, blockOf;
    }

    function Now(): World
      reads this
    {
      World(registry, files)
    }

    // ----- Adding

    /** The inner loop of `create_chunks`: copies one chunk into a zeroed buffer. */
    method CopyChunk(data: seq<byte>, i: nat, dataSize: nat) returns (bloc: array<byte>, size: nat, left: nat)
      requires dataSize == |data| - Min(i * BLOCK_LIMIT, |data|)
      ensures fresh(bloc) && bloc[..] == StrField(Chunk(data, i), BLOCK_LIMIT) && size == |Chunk(data, i)|
      ensures left == |data| - Min((i + 1) * BLOCK_LIMIT, |data|)
    {
      bloc := new byte[BLOCK_LIMIT](_ => 0);
      size, left := 0, dataSize;
      for j := 0 to BLOCK_LIMIT
        invariant size == j && left == dataSize - j
        invariant forall k | 0 <= k < j :: bloc[k] == data[i * BLOCK_LIMIT + k]
        invariant forall k | j <= k < BLOCK_LIMIT :: bloc[k] == 0
      {
        if left == 0 {
          break;
        }
        bloc[j] := data[i * BLOCK_LIMIT + j];
        left, size := left - 1, size + 1;
      }
      assert |Chunk(data, i)| == size;
      assert bloc[..] == StrField(Chunk(data, i), BLOCK_LIMIT);
    }

    /** Writes a node image and registers it. */
    method Save(image: Contents, base: Contents) returns (cid: seq<byte>)
      modifies this`registry, this`files
      ensures Now() == Put(old(Now()), image, base) && cid == Cid(image)
    {
      hide Cid;
      hide BlockName;
      var hashString := GenerateBlockName(base);
      var blockname := hashString + DAT;
      files := files[blockname := image];
      cid := GenerateCid(files[blockname]);
      registry := registry[cid := blockname];
    }

    /** The outer loop of `create_chunks`: writes one block. */
    method CreateChunk(data: seq<byte>, i: nat, dataSize: nat) returns (cid: seq<byte>, left: nat)
      requires dataSize == |data| - Min(i * BLOCK_LIMIT, |data|)
      modifies this`registry, this`files
      ensures cid == Cid(Image(ChunkNode(Chunk(data, i)))) && left == |data| - Min((i + 1) * BLOCK_LIMIT, |data|)
      ensures Now() == Put(old(Now()), ChunkImage(data, i), Chunk(data, i))
    {
      hide Cid;
      hide Put;
      hide Image;
      hide Chunk;
      hide ChunkImage;
      hide StrField;
      var currentBloc, currentBlockSize;
      currentBloc, currentBlockSize, left := CopyChunk(data, i, dataSize);
      FieldStarts(Chunk(data, i), BLOCK_LIMIT);
      var node := DAGNode(1, StrField(NULL_NAME, FILENAME_SIZE), 0, EmptyLinks(), currentBloc[..], currentBlockSize);
      assert node == ChunkNode(Chunk(data, i));
      DecodeImage(node);
      ImageOfChunk(data, i);
      cid := Save(Image(node), currentBloc[..currentBlockSize]);
    }

    /** `create_chunks` */
    method CreateChunks(data: seq<byte>, nbBlocks: nat) returns (linksTab: array<seq<byte>>)
      modifies this`registry, this`files
      ensures fresh(linksTab) && linksTab[..] == Links(data, nbBlocks)
      ensures Now() == PutAll(old(Now()), ChunkBlocks(data, nbBlocks))
    {
      hide Cid;
      hide Put;
      hide Image;
      hide Chunk;
      hide ChunkImage;
      hide ChunkNode;
      linksTab := new seq<byte>[nbBlocks](_ => []);
      ghost var bs := ChunkBlocks(data, nbBlocks);
      var dataSize := |data|;
      for i := 0 to nbBlocks
        invariant dataSize == |data| - Min(i * BLOCK_LIMIT, |data|)
        invariant Now() == PutAll(old(Now()), bs[..i])
        invariant forall k | 0 <= k < i :: linksTab[k] == Links(data, nbBlocks)[k]
      {
        PutNext(old(Now()), bs[..i], bs[i]);
        assert bs[..i] + [bs[i]] == bs[..i + 1];
        linksTab[i], dataSize := CreateChunk(data, i, dataSize);
      }
      assert bs[..nbBlocks] == bs;
    }

    /** `strcat`, behind the text already there. */
    static method StrCat(buf: array<byte>, ghost text: seq<byte>, s: seq<byte>)
      requires 0 !in text && |text| + |s| < buf.Length && buf[..] == StrField(text, buf.Length)
      modifies buf
      ensures buf[..] == StrField(text + s, buf.Length)
    {
      var pos := 0;
      assert forall k | 0 <= k < buf.Length :: buf[k] == buf[..][k] == StrField(text, buf.Length)[k];
      while buf[pos] != 0
        invariant pos <= |text|
        decreases |text| - pos
      {
        pos := pos + 1;
      }
      assert pos == |text|;
      assert buf[..pos] == text;
      var end := Memory.Copy(buf, pos, s + [0]);
      assert forall k | end <= k < buf.Length :: buf[k] == 0;
    }

    /** `concat_parents_to_string`, into a zeroed buffer. */
    static method ConcatParentsToString(filename: seq<byte>, links: array<seq<byte>>, size: nat, result: array<byte>)
      requires size <= links.Length && 0 !in filename && forall i | 0 <= i < size :: 0 !in links[i]
      requires |filename| + |Flat(links[..size])| < result.Length && result[..] == StrField([], result.Length)
      modifies result
      ensures result[..] == StrField(filename + Flat(links[..size]), result.Length)
    {
      hide StrField;
      StrCat(result, [], filename);
      assert [] + filename == filename + Flat(links[..0]);
      for i := 0 to size
        invariant |filename + Flat(links[..i])| < result.Length
        invariant result[..] == StrField(filename + Flat(links[..i]), result.Length)
        invariant 0 !in filename + Flat(links[..i])
      {
        assert links[..i + 1][..i] == links[..i];
        FlatGrows(links[..size], i);
        assert links[..size][..i + 1] == links[..i + 1];
        ghost var text := filename + Flat(links[..i]);
        assert text + links[i] == filename + Flat(links[..i + 1]);
        StrCat(result, text, links[i]);
      }
    }

    /** The link table of a parent node. */
    static method CopyLinks(links: array<seq<byte>>, nbLinks: nat) returns (fields: array<seq<byte>>)
      requires nbLinks == links.Length && forall i | 0 <= i < nbLinks :: |links[i]| < LINK_SIZE
      ensures fresh(fields) && fields[..] == LinkFields(links[..])
    {
      hide StrField;
      hide StrCpy;
      fields := new seq<byte>[MAX_LINKS](_ => Memory.Zeros(LINK_SIZE));
      for i := 0 to MAX_LINKS
        invariant i <= nbLinks
        invariant forall k | 0 <= k < i :: fields[k] == LinkField(links[..], k)
        invariant forall k | i <= k < MAX_LINKS :: fields[k] == Memory.Zeros(LINK_SIZE)
      {
        if i >= nbLinks {
          fields[i] := StrCpy(fields[i], []);
          forall k | i <= k < MAX_LINKS
            ensures fields[k] == LinkField(links[..], k)
          {
            StrCpyIsField([], LINK_SIZE);
            NothingCopied(LINK_SIZE);
          }
          break;
        } else {
          StrCpyIsField(links[i], LINK_SIZE);
          fields[i] := StrCpy(fields[i], links[i]);
        }
      }
    }

    /** `create_parent` */
    method CreateParent(filename: seq<byte>, links: array<seq<byte>>, nbLinks: nat, contentSize: nat)
      returns (cid: seq<byte>)
      requires |filename| < FILENAME_SIZE && 0 !in filename
      requires nbLinks == links.Length <= INT_MAX && contentSize <= MAX_FILE_LENGTH
      requires forall i | 0 <= i < nbLinks :: |links[i]| == ENCODED_HASH_LENGTH && 0 !in links[i]
      modifies this`registry, this`files
      ensures |filename| + |Flat(links[..])| <= ResultSize(nbLinks)
      ensures cid == Cid(Image(ParentNode(filename, links[..], contentSize)))
      ensures |Image(ParentNode(filename, links[..], contentSize))| == NODE_SIZE
      ensures Now() == Put(old(Now()), Image(ParentNode(filename, links[..], contentSize)), NamingString(filename, links[..]))
    {
      hide Cid;
      hide Put;
      hide Image;
      hide StrField;
      hide StrCpy;
      StrCpyIsField(filename, FILENAME_SIZE);
      var fields := CopyLinks(links, nbLinks);
      var node := DAGNode(2, StrCpy(Memory.Zeros(FILENAME_SIZE), filename), nbLinks, fields[..],
                          Memory.Zeros(BLOCK_LIMIT), contentSize);
      assert node == ParentNode(filename, links[..], contentSize);
      FlatLength(links[..], ENCODED_HASH_LENGTH);
      var resultSize := nbLinks * ENCODED_HASH_LENGTH + 1 + NAME_MAX;
      var result := new byte[resultSize](_ => 0);
      assert links[..nbLinks] == links[..];
      NothingYet(result[..]);
      ConcatParentsToString(filename, links, nbLinks, result);
      DecodeImage(node);
      cid := Save(Image(node), result[..]);
    }

    // ----- The file that `get_tnfs_file` writes

    /** The file with that name, if it is a block file, now has that content. */
    method SetOutput(name: seq<byte>, content: Contents, ghost images: set<seq<byte>>)
      requires Trusted(images) && (blockOf(name).Some? ==> CollidesWithNone(content, images))
      modifies this`files
      ensures Now() == Output(old(Now()), blockOf(name), content) && Trusted(images)
    {
      if blockOf(name).Some? {
        files := files[blockOf(name).value := content];
      }
    }

    /** Whether the file with that name still has that content. */
    predicate OutputStands(name: seq<byte>, content: seq<byte>)
      reads this
    {
      blockOf(name).Some? ==> blockOf(name).value in files && files[blockOf(name).value] == content
    }

    // ----- Reading

    /** No file that is in the store now or later collides with one of `images`. */
    ghost predicate Trusted(images: set<seq<byte>>)
      reads this
    {
      && Faithful(Now(), images)
      && forall i | 0 <= i < |script| :: Faithful(script[i], images)
    }

    lemma NothingToTrust()
      ensures Trusted({})
    {
    }

    /** Others get their turn. */
    method Interference(ghost images: set<seq<byte>>)
      requires Trusted(images)
      modifies this
      ensures Trusted(images)
      ensures if old(script) == [] then Now() == old(Now()) && script == [] else |script| < |old(script)|
    {
      if script != [] {
        registry, files := script[0].registry, script[0].files;
        script := script[1..];
      }
    }

    /** `get_redis_command`: "null" for a missing key. */
    function GetRedis(key: seq<byte>): (value: seq<byte>)
      reads this
    {
      if key in registry then registry[key] else NULL_NAME
    }

    /** `verify_block` */
    method VerifyBlock(name: seq<byte>, cid: seq<byte>) returns (ok: bool)
      requires name in files
      ensures ok <==> Cid(files[name]) == cid
    {
      var blockCid := GenerateCid(files[name]);
      ok := blockCid == cid;
    }

    /** `read_block`. The result is None where the program exits because no peer has the
        block. What is read always matches the identifier; a block of a trusted image is
        read back as it was, whatever happens to the registry and the files meanwhile.
        Left alone, the call succeeds exactly on what is stored. */
    method ReadBlock(cid: seq<byte>, ghost images: set<seq<byte>>) returns (node: Option<DAGNode>)
      requires Trusted(images)
      modifies this
      ensures Trusted(images)
      ensures node.Some? ==> exists image: Contents :: Cid(image) == cid && node.value == Decode(Fread(image))
      ensures forall a | a in images && Cid(a) == cid && node.Some? :: node.value == Decode(Fread(a))
      ensures old(script) == [] ==> script == [] && (node.Some? <==> Stored(old(Now()), cid))
      ensures old(script) == [] ==> Now() == if node.Some? then old(Now()) else Purged(old(Now()), cid)
      decreases |script|, if GetRedis(cid) == NULL_NAME then 0 else 1
    {
      hide Cid;
      hide Decode;
      hide Fread;
      hide Sha256;
      Interference(images);
      var blockName := GetRedis(cid);
      if blockName == NULL_NAME {
        // look_for_block
        Interference(images);
        blockName := GetRedis(cid);
        if blockName == NULL_NAME {
          return None;
        }
      }
      if blockName !in files {
        registry := registry - {cid};
        node := ReadBlock(cid, images);
        return;
      }
      var ok := VerifyBlock(blockName, cid);
      if !ok {
        registry := registry - {cid};
        files := files - {blockName};
        node := ReadBlock(cid, images);
        return;
      }
      ghost var image: Contents := files[blockName];
      forall a | a in images && Cid(a) == cid
        ensures a == image
      {
        NamesAreDigests(a, image);
      }
      node := Some(Decode(Fread(files[blockName])));
    }
  }

  ghost predicate CollidesWithNone(content: seq<byte>, images: set<seq<byte>>) {
    forall a | a in images && Sha256(content) == Sha256(a) :: content == a
  }

  /** No file of a world collides with one of `images`. */
  ghost predicate Faithful(w: World, images: set<seq<byte>>) {
    forall name, a | name in w.files && a in images :: Sha256(w.files[name]) == Sha256(a) ==> w.files[name] == a
  }
}

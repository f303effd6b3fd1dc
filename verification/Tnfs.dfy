/** Adding and getting files: tnfs.c. */
module Tnfs {
  import opened Bytes
  import opened Files
  import opened Dag
  import opened Keeping
  import opened Sha256Spec
  import Base32
  import Memory

  /** What `get_tnfs_file` does: the program exits, reports that the identifier is a
      block's, reads outside a node, writes a file, or has written one that others removed or
      changed meanwhile. */
  datatype Outcome = Exited | NotAFile | Undefined | Wrote(filename: seq<byte>, content: seq<byte>) | Lost

  /** A file name that fits a node. */
  ghost predicate IsFilename(s: seq<byte>) {
    |s| < FILENAME_SIZE && 0 !in s
  }

  lemma LinksAreText(data: seq<byte>, k: nat)
    ensures forall i | 0 <= i < k :: |Links(data, k)[i]| == ENCODED_HASH_LENGTH && 0 !in Links(data, k)[i]
    ensures |Flat(Links(data, k))| == ENCODED_HASH_LENGTH * k
  {
    hide Cid;
    hide Image;
    forall i | 0 <= i < k
      ensures |Links(data, k)[i]| == ENCODED_HASH_LENGTH && 0 !in Links(data, k)[i]
    {
      NamesAreText(Image(ChunkNode(Chunk(data, i))));
    }
    FlatLength(Links(data, k), ENCODED_HASH_LENGTH);
  }

  /** The parent node that adding a file creates. */
  ghost function FileNode(filename: seq<byte>, data: seq<byte>): (n: DAGNode)
    requires IsFilename(filename) && |data| <= MAX_FILE_LENGTH
    ensures WellFormed(n)
  {
    var links := Links(data, NumberOfBlocks(|data|));
    LinksAreText(data, NumberOfBlocks(|data|));
    ParentNode(filename, links, |data|)
  }

  ghost function FileImage(filename: seq<byte>, data: seq<byte>): (image: Contents)
    requires IsFilename(filename) && |data| <= MAX_FILE_LENGTH
  {
    DecodeImage(FileNode(filename, data));
    Image(FileNode(filename, data))
  }

  /** The identifier that adding a file reports. */
  ghost function FileCid(filename: seq<byte>, data: seq<byte>): (cid: seq<byte>)
    requires IsFilename(filename) && |data| <= MAX_FILE_LENGTH
  {
    Cid(FileImage(filename, data))
  }

  ghost function FileNaming(filename: seq<byte>, data: seq<byte>): (s: seq<byte>)
    requires IsFilename(filename)
  {
    var links := Links(data, NumberOfBlocks(|data|));
    LinksAreText(data, NumberOfBlocks(|data|));
    NamingString(filename, links)
  }

  /** The blocks of a file, in the order in which they are written. */
  ghost function FileBlocks(filename: seq<byte>, data: seq<byte>): (bs: seq<Block>)
    requires IsFilename(filename) && |data| <= MAX_FILE_LENGTH
  {
    ChunkBlocks(data, NumberOfBlocks(|data|)) + [Block(FileImage(filename, data), FileNaming(filename, data))]
  }

  /** The store after a file was added. */
  ghost function Added(w: World, filename: seq<byte>, data: seq<byte>): World
    requires IsFilename(filename) && |data| <= MAX_FILE_LENGTH
  {
    PutAll(w, FileBlocks(filename, data))
  }

  ghost function Images(filename: seq<byte>, data: seq<byte>): (s: set<seq<byte>>)
    requires IsFilename(filename) && |data| <= MAX_FILE_LENGTH
  {
    ImagesOf(FileBlocks(filename, data))
  }

  lemma BlocksOfFile(filename: seq<byte>, data: seq<byte>)
    requires IsFilename(filename) && |data| <= MAX_FILE_LENGTH
    ensures var bs, nb := FileBlocks(filename, data), NumberOfBlocks(|data|);
            && |bs| == nb + 1 && bs[nb] == Block(FileImage(filename, data), FileNaming(filename, data))
            && (forall i: nat | i < nb :: bs[i] == Block(ChunkImage(data, i), Chunk(data, i)))
    ensures FileImage(filename, data) in Images(filename, data)
    ensures forall i: nat | i < NumberOfBlocks(|data|) :: ChunkImage(data, i) in Images(filename, data)
  {
    hide FileImage;
    hide FileNaming;
    hide ChunkImage;
    var bs, nb := FileBlocks(filename, data), NumberOfBlocks(|data|);
    assert bs[nb] in bs && bs[nb].image in ImagesOf(bs);
    forall i: nat | i < nb
      ensures ChunkImage(data, i) in Images(filename, data)
    {
      assert bs[i] in bs && bs[i].image in ImagesOf(bs);
    }
  }

  // ----- What is on disk, byte by byte

  lemma FieldInside(image: seq<byte>, at: nat, c: seq<byte>, n: nat)
    requires |c| <= n && at + n <= |image| && image[at..at + n] == StrField(c, n)
    ensures image[at..at + |c|] == c && forall k | at + |c| <= k < at + n :: image[k] == 0
  {
    var field := image[at..at + n];
    assert field[..|c|] == image[at..at + |c|];
    assert forall k | at + |c| <= k < at + n :: image[k] == field[k - at];
  }

  /** A block of data: kind 1, named "null", without links, with its bytes and their number. */
  lemma BlockOnDisk(data: seq<byte>, i: nat)
    ensures var image, c := ChunkImage(data, i), Chunk(data, i);
            && |image| == 302268 && NumberAt(image, 0) == 1 && NumberAt(image, 260) == 0
            && NumberAt(image, 302264) == |c|
            && image[4..9] == [110, 117, 108, 108, 0]
            && image[46264..46264 + |c|] == c
            && (forall k | 46264 + |c| <= k < 302264 :: image[k] == 0)
  {
    hide Image;
    hide Chunk;
    hide NumberAt;
    hide StrField;
    var image, c, n := ChunkImage(data, i), Chunk(data, i), ChunkNode(Chunk(data, i));
    ImageLayout(n, 0);
    FieldInside(image, 4, NULL_NAME, FILENAME_SIZE);
    FieldInside(image, 46264, c, BLOCK_LIMIT);
    assert image[4..9] == image[4..8] + [image[8]];
  }

  /** A file: kind 2, its name, its blocks, of which 400 have room, and its length. */
  lemma FileOnDisk(filename: seq<byte>, data: seq<byte>, j: nat)
    requires IsFilename(filename) && |data| <= MAX_FILE_LENGTH && j < 400 && j <= |data| / 256000
    ensures var image := FileImage(filename, data);
            && |image| == 302268 && NumberAt(image, 0) == 2 && NumberAt(image, 260) == |data| / 256000 + 1
            && NumberAt(image, 302264) == |data|
            && image[4..4 + |filename|] == filename && image[4 + |filename|] == 0
            && image[264 + 115 * j..377 + 115 * j] == Cid(ChunkImage(data, j)) && image[377 + 115 * j] == 0
  {
    hide Image;
    hide Cid;
    hide NumberAt;
    hide ChunkImage;
    var image, n := FileImage(filename, data), FileNode(filename, data);
    ImageLayout(n, j);
    var links := Links(data, NumberOfBlocks(|data|));
    LinksAreText(data, NumberOfBlocks(|data|));
    ImageOfChunk(data, j);
    hide StrField;
    assert n.links[j] == StrField(links[j], LINK_SIZE);
    FieldInside(image, 4, filename, FILENAME_SIZE);
    FieldInside(image, 264 + 115 * j, links[j], LINK_SIZE);
  }

  /** What the name of a file's block is the digest of: the name, the identifiers of its blocks and
      zeros. */
  lemma NamingOnDisk(filename: seq<byte>, data: seq<byte>, j: nat)
    requires IsFilename(filename) && j <= |data| / 256000
    ensures var s, nb, p := FileNaming(filename, data), |data| / 256000 + 1, |filename|;
            && |s| == nb * 113 + 256 && s[..p] == filename
            && 0 <= p + 113 * j <= p + 113 * j + 113 <= |s| && s[p + 113 * j..p + 113 * j + 113] == Cid(ChunkImage(data, j))
            && (forall k | p + 113 * nb <= k < |s| :: s[k] == 0)
  {
    hide Image;
    hide Cid;
    hide ChunkImage;
    hide Flat;
    var nb := NumberOfBlocks(|data|);
    var links := Links(data, nb);
    LinksAreText(data, nb);
    ImageOfChunk(data, j);
    FlatSlice(links, 113, j);
    var s := FileNaming(filename, data);
    assert s == filename + Flat(links) + Memory.Zeros(|s| - |filename| - |Flat(links)|);
  }

  /** A block is registered under its identifier, in a file named by the digest that its name is made
      from; nothing else in the store is different. */
  lemma PutOnDisk(w: World, image: Contents, base: seq<byte>)
    ensures var w', cid, name := Put(w, image, base), Cid(image), Hex(Sha256(base)) + [46, 100, 97, 116];
            && cid == [98] + Base32.Coded([48, 49, 49, 50, 50, 48] + Hex(Sha256(image)))
            && cid in w'.registry && w'.registry[cid] == name && name in w'.files && w'.files[name] == image
            && w'.registry - {cid} == w.registry - {cid} && w'.files - {name} == w.files - {name}
  {
    hide Sha256;
    hide Hex;
    hide Base32.Coded;
  }

  /** What getting an added file is meant to do: a file of exactly MAX_FILE_LENGTH bytes
      has one block more than a node has links. */
  ghost function Intended(filename: seq<byte>, data: seq<byte>): Outcome {
    if NumberOfBlocks(|data|) <= MAX_LINKS then Wrote(filename, data) else Undefined
  }

  /** Whether all blocks of a file can be read. */
  ghost predicate Complete(w: World, filename: seq<byte>, data: seq<byte>)
    requires IsFilename(filename) && |data| <= MAX_FILE_LENGTH
  {
    && Stored(w, FileCid(filename, data))
    && forall i: nat | i < NumberOfBlocks(|data|) && i < MAX_LINKS :: Stored(w, Cid(ChunkImage(data, i)))
  }

  /** Whether the file that is written takes the place of a block that is still to be read. */
  ghost predicate InTheWay(w: World, target: Option<seq<byte>>, data: seq<byte>) {
    exists i: nat | i < NumberOfBlocks(|data|) && i < MAX_LINKS ::
      var cid := Cid(ChunkImage(data, i));
      cid in w.registry && target == Some(w.registry[cid])
  }

  /** The first `k` chunks together. */
  function Prefix(data: seq<byte>, k: nat): (s: seq<byte>)
    ensures |s| == Min(k * BLOCK_LIMIT, |data|)
  {
    data[..Min(k * BLOCK_LIMIT, |data|)]
  }

  /** The digests of what is in the output file on the way are not those of images. */
  ghost predicate PrefixesApart(data: seq<byte>, images: set<seq<byte>>) {
    forall k: nat | k <= NumberOfBlocks(|data|) :: CollidesWithNone(Prefix(data, k), images)
  }

  /** `add_tnfs_file` */
  method AddTnfsFile(store: Store, filename: seq<byte>, content: seq<byte>) returns (cid: Option<seq<byte>>)
    requires IsFilename(filename)
    modifies store`registry, store`files
    ensures cid.Some? <==> 0 < |content| <= 102400000
    ensures cid == None ==> store.Now() == old(store.Now())
    ensures cid.Some? ==>
              cid.value == FileCid(filename, content) && store.Now() == Added(old(store.Now()), filename, content)
  {
    hide Cid;
    hide Put;
    hide PutAll;
    hide Image;
    hide NamingString;
    hide ParentNode;
    hide Links;
    if |content| == 0 {
      return None;
    }
    if |content| > MAX_FILE_LENGTH {
      return None;
    }
    var nbBlocks := NumberOfBlocks(|content|);
    var linksTab := store.CreateChunks(content, nbBlocks);
    LinksAreText(content, nbBlocks);
    var parent := store.CreateParent(filename, linksTab, nbBlocks, |content|);
    PutNext(old(store.Now()), ChunkBlocks(content, nbBlocks),
            Block(FileImage(filename, content), FileNaming(filename, content)));
    return Some(parent);
  }

  /** What a reader finds in the parent node of a file. */
  lemma FileNodeFields(filename: seq<byte>, data: seq<byte>)
    requires IsFilename(filename) && |data| <= MAX_FILE_LENGTH
    ensures var n := FileNode(filename, data);
            && Decode(Fread(FileImage(filename, data))) == n
            && n.kind == 2 && n.nbLinks == NumberOfBlocks(|data|) && |n.links| == MAX_LINKS
            && 0 in n.filename && CStr(n.filename) == filename
  {
    hide Decode;
    hide Image;
    hide Fread;
    hide LinkFields;
    hide Links;
    hide StrField;
    hide CStr;
    DecodeImage(FileNode(filename, data));
    CStrOfField(filename, FILENAME_SIZE);
    LinksAreText(data, NumberOfBlocks(|data|));
  }

  lemma FileNodeLink(filename: seq<byte>, data: seq<byte>, i: nat)
    requires IsFilename(filename) && |data| <= MAX_FILE_LENGTH && i < NumberOfBlocks(|data|) && i < MAX_LINKS
    ensures var n := FileNode(filename, data);
            |n.links| == MAX_LINKS && 0 in n.links[i] && CStr(n.links[i]) == Cid(ChunkImage(data, i))
  {
    hide Cid;
    hide Image;
    hide StrField;
    hide CStr;
    var links := Links(data, NumberOfBlocks(|data|));
    LinksAreText(data, NumberOfBlocks(|data|));
    CStrOfField(links[i], LINK_SIZE);
    assert FileNode(filename, data).links[i] == LinkField(links, i);
  }

  /** What a reader finds in a block of data. */
  lemma BlockFields(data: seq<byte>, i: nat)
    ensures var n := Decode(Fread(ChunkImage(data, i)));
            && n.size == |Chunk(data, i)| <= BLOCK_LIMIT && |n.data| == BLOCK_LIMIT
            && n.data[..n.size] == Chunk(data, i)
  {
    hide Decode;
    hide Image;
    hide Fread;
    hide StrField;
    DecodeImage(ChunkNode(Chunk(data, i)));
    FieldStarts(Chunk(data, i), BLOCK_LIMIT);
  }

  lemma NextChunk(data: seq<byte>, i: nat)
    ensures Prefix(data, i) + Chunk(data, i) == Prefix(data, i + 1)
  {
  }

  /** The file is complete once all its blocks are read. */
  lemma AllRead(data: seq<byte>)
    ensures Prefix(data, NumberOfBlocks(|data|)) == data && Prefix(data, 0) == []
  {
  }

  /** While the output file holds full chunks only, a block is still there if it was at the
      start, unless its file is the output file: an image is no whole number of chunks. */
  lemma StoredBehindOutput(w: World, target: Option<seq<byte>>, data: seq<byte>, i: nat, images: set<seq<byte>>)
    requires i < NumberOfBlocks(|data|) && ChunkImage(data, i) in images
    requires target.Some? ==> PrefixesApart(data, images)
    requires |Prefix(data, i)| < 0x2000_0000_0000_0000
    ensures var cid := Cid(ChunkImage(data, i));
            Stored(Output(w, target, Prefix(data, i)), cid) <==>
            Stored(w, cid) && target != Some(w.registry[cid])
  {
    hide Cid;
    hide Sha256;
    hide Image;
    var image, p := ChunkImage(data, i), Prefix(data, i);
    assert |p| == i * BLOCK_LIMIT;
    if target.Some? {
      NamesAreDigests(p, image);
      assert i * 256000 != 302268;
      assert Cid(p) != Cid(image);
    }
  }

  lemma NothingCollides(content: seq<byte>)
    ensures CollidesWithNone(content, {})
  {
  }

  lemma EmptyApart(data: seq<byte>, images: set<seq<byte>>)
    ensures PrefixesApart(data, images) ==> CollidesWithNone([], images)
  {
    hide CollidesWithNone;
    assert Prefix(data, 0) == [];
  }

  /** The output file stands if nothing else was written. */
  lemma OutputIsThere(w: World, target: Option<seq<byte>>, content: Contents)
    ensures target.Some? ==>
              target.value in Output(w, target, content).files && Output(w, target, content).files[target.value] == content
  {
  }

  lemma OutputTwice(w: World, target: Option<seq<byte>>, content: Contents, content': Contents)
    ensures Output(Output(w, target, content), target, content') == Output(w, target, content')
  {
  }

  lemma BlocksAreKindOne(data: seq<byte>)
    ensures forall i: nat | i < NumberOfBlocks(|data|) :: Decode(Fread(ChunkImage(data, i))).kind == 1
  {
    hide Decode;
    hide Fread;
    hide Image;
    forall i: nat | i < NumberOfBlocks(|data|)
      ensures Decode(Fread(ChunkImage(data, i))).kind == 1
    {
      DecodeImage(ChunkNode(Chunk(data, i)));
    }
  }

  /** The identifier of a block of a file. */
  ghost predicate IsBlockOf(cid: seq<byte>, data: seq<byte>) {
    exists i: nat | i < NumberOfBlocks(|data|) :: cid == Cid(ChunkImage(data, i))
  }

  /** `get_tnfs_file`. `filename` and `data` are any file. If `cid` is the identifier that
      adding it reports, and no file in the store collides with one of its blocks, then the
      call gives back exactly that file or exits, whatever others do to the registry and the
      block files; only an output file among the block files may be lost to them. Left
      alone, it gives the file back exactly if all blocks are there and the output file does
      not take the place of one. The identifier of a block is reported as such. */
  method GetTnfsFile(store: Store, cid: seq<byte>, ghost filename: seq<byte>, ghost data: seq<byte>)
    returns (out: Outcome)
    requires IsFilename(filename) && |data| <= MAX_FILE_LENGTH
    requires cid == FileCid(filename, data) || IsBlockOf(cid, data) ==> store.Trusted(Images(filename, data))
    requires cid == FileCid(filename, data) && store.blockOf(filename).Some? ==>
               PrefixesApart(data, Images(filename, data))
    modifies store
    ensures cid == FileCid(filename, data) ==>
              out == Exited || out == Intended(filename, data) || (out == Lost && store.blockOf(filename).Some?)
    ensures cid == FileCid(filename, data) && old(store.script) == [] ==>
              && (out == Exited || out == Intended(filename, data))
              && (out != Exited <==> Complete(old(store.Now()), filename, data)
                                     && !InTheWay(old(store.Now()), store.blockOf(filename), data))
    ensures IsBlockOf(cid, data) ==> out == Exited || out == NotAFile
    ensures IsBlockOf(cid, data) && old(store.script) == [] ==>
              && (out == NotAFile <==> Stored(old(store.Now()), cid))
              && (out == NotAFile ==> store.Now() == old(store.Now()))
  {
    hide Cid;
    hide Decode;
    hide Fread;
    hide FileNode;
    hide FileImage;
    hide CStr;
    hide Chunk;
    hide ChunkImage;
    hide Stored;
    hide Faithful;
    hide PrefixesApart;
    hide ImagesOf;
    hide FileBlocks;
    hide Store.Trusted;
    ghost var ours := cid == FileCid(filename, data);
    ghost var block := IsBlockOf(cid, data);
    ghost var images := if ours || block then Images(filename, data) else {};
    store.NothingToTrust();
    FileNodeFields(filename, data);
    BlocksOfFile(filename, data);
    BlocksAreKindOne(data);
    var node := store.ReadBlock(cid, images);
    if node == None {
      return Exited;
    }
    var parent := node.value;
    assert ours ==> parent == FileNode(filename, data);
    assert block ==> parent.kind == 1;
    if parent.kind != 2 {
      return NotAFile;
    }
    if 0 !in parent.filename {
      return Undefined;
    }
    CompleteBehind(old(store.Now()), store.blockOf(filename), filename, data);
    out := WriteFile(store, parent, filename, data, ours, images);
  }

  /** A block is stored, and not under the name of the output file. */
  ghost predicate ReadableBehind(w: World, target: Option<seq<byte>>, cid: seq<byte>) {
    Stored(w, cid) && target != Some(w.registry[cid])
  }

  /** The first `n` blocks of a file can be read behind the output file. */
  ghost predicate AllBehind(w: World, target: Option<seq<byte>>, data: seq<byte>, n: nat) {
    forall k: nat | k < n :: ReadableBehind(w, target, Cid(ChunkImage(data, k)))
  }

  lemma BehindNext(w: World, target: Option<seq<byte>>, data: seq<byte>, n: nat)
    ensures AllBehind(w, target, data, 0)
    ensures AllBehind(w, target, data, n + 1) <==>
            AllBehind(w, target, data, n) && ReadableBehind(w, target, Cid(ChunkImage(data, n)))
    ensures forall m: nat | n < m && AllBehind(w, target, data, m) :: AllBehind(w, target, data, n + 1)
  {
    hide ReadableBehind;
    hide ChunkImage;
    hide Cid;
  }

  lemma CompleteBehind(w: World, target: Option<seq<byte>>, filename: seq<byte>, data: seq<byte>)
    requires IsFilename(filename) && |data| <= MAX_FILE_LENGTH
    ensures Complete(w, filename, data) && !InTheWay(w, target, data) <==>
            Stored(w, FileCid(filename, data)) && AllBehind(w, target, data, Min(NumberOfBlocks(|data|), MAX_LINKS))
  {
    hide Cid;
    hide ChunkImage;
    hide FileImage;
  }

  /** What became of the output file: the call ends, or it goes on with what was written so
      far, which others may have removed or changed. */
  datatype Progress = Stop(out: Outcome) | Next(content: seq<byte>, lost: bool)

  /** One round of the loop of `get_tnfs_file`. */
  method WriteBlock(store: Store, name: seq<byte>, cid: seq<byte>, content: seq<byte>, lost: bool, ghost w: World,
                    ghost data: seq<byte>, ghost i: nat, ghost ours: bool, ghost images: set<seq<byte>>)
    returns (r: Progress)
    requires store.Trusted(images) && i < MAX_LINKS && |content| <= i * BLOCK_LIMIT
    requires ours ==>
               && i < NumberOfBlocks(|data|) && cid == Cid(ChunkImage(data, i)) && content == Prefix(data, i)
               && ChunkImage(data, i) in images && (store.blockOf(name).Some? ==> PrefixesApart(data, images))
    requires !ours ==> images == {}
    modifies store
    ensures store.Trusted(images)
    ensures r.Next? ==> |r.content| <= (i + 1) * BLOCK_LIMIT && (r.lost ==> lost || store.blockOf(name).Some?)
    ensures ours ==> r == Stop(Exited) || (r.Next? && r.content == Prefix(data, i + 1))
    ensures ours && !lost && old(store.script) == [] && old(store.Now()) == Output(w, store.blockOf(name), content) ==>
              && (r.Next? <==> ReadableBehind(w, store.blockOf(name), cid))
              && (r.Next? ==> !r.lost && store.script == [] && store.Now() == Output(w, store.blockOf(name), r.content))
  {
    hide Cid;
    hide Decode;
    hide Fread;
    hide Chunk;
    hide Prefix;
    hide ChunkImage;
    hide Stored;
    hide Faithful;
    hide Store.Trusted;
    hide Output;
    ghost var target := store.blockOf(name);
    if ours {
      StoredBehindOutput(w, target, data, i, images);
    }
    BlockFields(data, i);
    NextChunk(data, i);
    var block := store.ReadBlock(cid, images);
    if block == None {
      return Stop(Exited);
    }
    if !(0 <= block.value.size <= BLOCK_LIMIT) {
      return Stop(Undefined);
    }
    OutputIsThere(w, target, content);
    var lost' := lost || !store.OutputStands(name, content);
    var content' := content + block.value.data[..block.value.size];
    if !lost' {
      OutputTwice(w, target, content, content');
      NothingCollides(content');
      store.SetOutput(name, content', images);
    }
    return Next(content', lost');
  }

  lemma ImageOfFile(filename: seq<byte>, data: seq<byte>, i: nat)
    requires IsFilename(filename) && |data| <= MAX_FILE_LENGTH && i < NumberOfBlocks(|data|)
    ensures ChunkImage(data, i) in Images(filename, data)
  {
    BlocksOfFile(filename, data);
  }

  /** The loop of `get_tnfs_file`, when an empty output file was opened in store `w`. */
  method WriteBlocks(store: Store, name: seq<byte>, parent: DAGNode, ghost filename: seq<byte>, ghost data: seq<byte>,
                     ghost w: World, ghost ours: bool, ghost images: set<seq<byte>>)
    returns (r: Progress)
    requires IsFilename(filename) && |data| <= MAX_FILE_LENGTH && |parent.links| == MAX_LINKS
    requires ours ==>
               && parent == FileNode(filename, data) && parent.nbLinks == NumberOfBlocks(|data|)
               && images == Images(filename, data)
               && (store.blockOf(name).Some? ==> PrefixesApart(data, images))
    requires !ours ==> images == {}
    requires store.Trusted(images)
    modifies store
    ensures r.Next? && r.lost ==> store.blockOf(name).Some?
    ensures ours ==>
              || r == Stop(Exited)
              || (r.Next? && NumberOfBlocks(|data|) <= MAX_LINKS && r.content == Prefix(data, NumberOfBlocks(|data|)))
              || (r == Stop(Undefined) && NumberOfBlocks(|data|) > MAX_LINKS)
    ensures ours && old(store.script) == [] && old(store.Now()) == Output(w, store.blockOf(name), []) ==>
              && (r.Next? ==> !r.lost)
              && (r != Stop(Exited) <==>
                    AllBehind(w, store.blockOf(name), data, Min(NumberOfBlocks(|data|), MAX_LINKS)))
  {
    hide Cid;
    hide FileNode;
    hide CStr;
    hide Prefix;
    hide ChunkImage;
    hide Store.Trusted;
    hide Output;
    hide ReadableBehind;
    hide AllBehind;
    hide Images;
    hide PrefixesApart;
    hide IsFilename;
    hide WellFormed;
    ghost var nb, target := NumberOfBlocks(|data|), store.blockOf(name);
    ghost var alone := store.script == [] && store.Now() == Output(w, target, []);
    AllRead(data);
    BehindNext(w, target, data, 0);
    var content: seq<byte>, lost := [], false;
    var i := 0;
    while i < parent.nbLinks
      invariant 0 <= i <= MAX_LINKS && |content| <= i * BLOCK_LIMIT && store.Trusted(images)
      invariant lost ==> target.Some?
      invariant ours ==> i <= nb && content == Prefix(data, i)
      invariant ours && alone ==>
                  && store.script == [] && !lost && store.Now() == Output(w, target, content)
                  && AllBehind(w, target, data, i)
    {
      if ours && i < MAX_LINKS {
        FileNodeLink(filename, data, i);
        BehindNext(w, target, data, i);
        ImageOfFile(filename, data, i);
      }
      if i >= MAX_LINKS || 0 !in parent.links[i] {
        return Stop(Undefined);
      }
      r := WriteBlock(store, name, CStr(parent.links[i]), content, lost, w, data, i, ours, images);
      if r.Stop? {
        return;
      }
      content, lost := r.content, r.lost;
      i := i + 1;
    }
    return Next(content, lost);
  }

  /** What `get_tnfs_file` does with the parent node. */
  method WriteFile(store: Store, parent: DAGNode, ghost filename: seq<byte>, ghost data: seq<byte>,
                   ghost ours: bool, ghost images: set<seq<byte>>)
    returns (out: Outcome)
    requires IsFilename(filename) && |data| <= MAX_FILE_LENGTH && WellFormed(parent) && 0 in parent.filename
    requires ours ==>
               && parent == FileNode(filename, data) && images == Images(filename, data)
               && (store.blockOf(filename).Some? ==> PrefixesApart(data, images))
    requires !ours ==> images == {}
    requires store.Trusted(images)
    modifies store
    ensures ours ==>
              out == Exited || out == Intended(filename, data) || (out == Lost && store.blockOf(filename).Some?)
    ensures ours && old(store.script) == [] ==>
              && (out == Exited || out == Intended(filename, data))
              && (out != Exited <==>
                    AllBehind(old(store.Now()), store.blockOf(filename), data, Min(NumberOfBlocks(|data|), MAX_LINKS)))
  {
    hide Cid;
    hide FileNode;
    hide FileImage;
    hide CStr;
    hide Prefix;
    hide Store.Trusted;
    hide Output;
    hide AllBehind;
    hide Images;
    hide PrefixesApart;
    FileNodeFields(filename, data);
    AllRead(data);
    var name := CStr(parent.filename);
    ghost var w := store.Now();
    NothingCollides([]);
    EmptyApart(data, images);
    // the file of that name is removed and an empty one is opened
    store.SetOutput(name, [], images);
    var r := WriteBlocks(store, name, parent, filename, data, w, ours, images);
    match r {
      case Stop(end) => return end;
      case Next(content, lost) => return if lost then Lost else Wrote(name, content);
    }
  }
}

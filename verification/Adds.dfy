/** Any number of files added to one store, and getting them back. */
module Adds {
  import opened Bytes
  import opened Dag
  import opened Files
  import opened Keeping
  import Memory
  import opened Sha256Spec
  import opened Tnfs

  datatype File = File(name: seq<byte>, data: seq<byte>)

  /** A file that can be added. */
  ghost predicate IsFile(f: File) {
    IsFilename(f.name) && 0 < |f.data| <= MAX_FILE_LENGTH
  }

  ghost predicate AreFiles(fs: seq<File>) {
    forall f | f in fs :: IsFile(f)
  }

  ghost function Blocks(f: File): seq<Block>
    requires IsFile(f)
  {
    FileBlocks(f.name, f.data)
  }

  /** All blocks that adding files one after the other writes. */
  ghost function AllBlocks(fs: seq<File>): seq<Block>
    requires AreFiles(fs)
  {
    if fs == [] then [] else AllBlocks(fs[..|fs| - 1]) + Blocks(fs[|fs| - 1])
  }

  /** The store after files were added one after the other. */
  ghost function AddedAll(w: World, fs: seq<File>): World
    requires AreFiles(fs)
  {
    if fs == [] then w
    else
      var last := fs[|fs| - 1];
      assert IsFile(last);
      Added(AddedAll(w, fs[..|fs| - 1]), last.name, last.data)
  }

  lemma {:induction false} AddedAllWrites(w: World, fs: seq<File>)
    requires AreFiles(fs)
    ensures AddedAll(w, fs) == PutAll(w, AllBlocks(fs))
  {
    hide PutAll;
    hide FileBlocks;
    if fs != [] {
      var init := fs[..|fs| - 1];
      AddedAllWrites(w, init);
      PutMore(w, AllBlocks(init), Blocks(fs[|fs| - 1]));
    } else {
      PutNothing(w);
    }
  }

  lemma PutNothing(w: World)
    ensures PutAll(w, []) == w
  {
  }

  lemma {:induction false} FileOf(fs: seq<File>, b: Block)
    requires AreFiles(fs)
    ensures b in AllBlocks(fs) <==> exists f :: f in fs && b in Blocks(f)
  {
    hide Blocks;
    if fs != [] {
      FileOf(fs[..|fs| - 1], b);
      assert forall f :: f in fs <==> f in fs[..|fs| - 1] || f == fs[|fs| - 1];
    }
  }

  /** A block of a file is one of its chunks or, at the end, its parent block. */
  ghost predicate IsBlock(f: File, i: nat, b: Block)
    requires IsFile(f)
  {
    var nb := NumberOfBlocks(|f.data|);
    && i <= nb
    && b == if i < nb then Block(ChunkImage(f.data, i), Chunk(f.data, i))
            else Block(FileImage(f.name, f.data), FileNaming(f.name, f.data))
  }

  lemma BlockAt(f: File, b: Block)
    requires IsFile(f)
    ensures b in Blocks(f) <==> exists i: nat :: IsBlock(f, i, b)
  {
    hide ChunkImage;
    hide FileImage;
    hide FileNaming;
    BlocksOfFile(f.name, f.data);
    var bs := Blocks(f);
    if b in bs {
      var i :| 0 <= i < |bs| && bs[i] == b;
      assert IsBlock(f, i, b);
    }
    if i: nat :| IsBlock(f, i, b) {
      assert bs[i] == b;
    }
  }

  // ----- What names and images tell

  lemma KindsDiffer(f: File, data: seq<byte>, i: nat)
    requires IsFile(f)
    ensures FileImage(f.name, f.data) != ChunkImage(data, i)
  {
    hide Decode;
    hide Image;
    DecodeImage(FileNode(f.name, f.data));
    DecodeImage(ChunkNode(Chunk(data, i)));
  }

  lemma SameField(s: seq<byte>, t: seq<byte>, n: nat)
    requires 0 !in s && 0 !in t && |s| < n && |t| < n && StrField(s, n) == StrField(t, n)
    ensures s == t
  {
    CStrOfField(s, n);
    CStrOfField(t, n);
  }

  /** The block past the link table is empty. */
  lemma LastLink(data: seq<byte>)
    requires |data| <= MAX_FILE_LENGTH && NumberOfBlocks(|data|) > MAX_LINKS
    ensures NumberOfBlocks(|data|) == MAX_LINKS + 1 && Chunk(data, MAX_LINKS) == []
  {
  }

  lemma LinkFromNode(f: File, i: nat)
    requires IsFile(f) && i < NumberOfBlocks(|f.data|) && i < MAX_LINKS
    ensures CStr(FileNode(f.name, f.data).links[i]) == Links(f.data, NumberOfBlocks(|f.data|))[i]
  {
    hide Cid;
    hide CStr;
    FileNodeLink(f.name, f.data, i);
    ImageOfChunk(f.data, i);
  }

  /** Files with the same parent image have the same name and links, the one that is not in
      the node included. */
  lemma SameParent(f: File, g: File)
    requires IsFile(f) && IsFile(g) && FileImage(f.name, f.data) == FileImage(g.name, g.data)
    ensures FileNaming(f.name, f.data) == FileNaming(g.name, g.data)
  {
    hide Cid;
    hide Decode;
    hide Image;
    hide CStr;
    hide FileNode;
    var m, n := FileNode(f.name, f.data), FileNode(g.name, g.data);
    var nb := NumberOfBlocks(|f.data|);
    DecodeImage(m);
    DecodeImage(n);
    FileNodeFields(f.name, f.data);
    FileNodeFields(g.name, g.data);
    var ls, ls' := Links(f.data, nb), Links(g.data, nb);
    forall i | 0 <= i < nb
      ensures ls[i] == ls'[i]
    {
      if i < MAX_LINKS {
        LinkFromNode(f, i);
        LinkFromNode(g, i);
      } else {
        LastLink(f.data);
        LastLink(g.data);
      }
    }
    assert ls == ls';
  }

  lemma {:induction false} FlatHasNoNul(links: seq<seq<byte>>)
    requires forall i | 0 <= i < |links| :: 0 !in links[i]
    ensures 0 !in Flat(links)
  {
    if links != [] {
      FlatHasNoNul(links[..|links| - 1]);
    }
  }

  /** The naming string of a file: its text, then at least one zero. */
  lemma NamingText(f: File)
    requires IsFile(f)
    ensures var nb := NumberOfBlocks(|f.data|);
            var text := f.name + Flat(Links(f.data, nb));
            && 0 !in text && |text| == |f.name| + ENCODED_HASH_LENGTH * nb < ResultSize(nb)
            && FileNaming(f.name, f.data) == StrField(text, ResultSize(nb))
            && |FileNaming(f.name, f.data)| == ResultSize(nb)
  {
    hide Links;
    hide StrField;
    LinksAreText(f.data, NumberOfBlocks(|f.data|));
    FlatHasNoNul(Links(f.data, NumberOfBlocks(|f.data|)));
  }

  lemma SameFlat(ls: seq<seq<byte>>, ls': seq<seq<byte>>, n: nat)
    requires |ls| == |ls'| && (forall i | 0 <= i < |ls| :: |ls[i]| == n && |ls'[i]| == n)
    requires Flat(ls) == Flat(ls')
    ensures ls == ls'
  {
    hide Flat;
    forall i | 0 <= i < |ls|
      ensures ls[i] == ls'[i]
    {
      FlatSlice(ls, n, i);
      FlatSlice(ls', n, i);
    }
  }

  lemma SplitAt(a: seq<byte>, b: seq<byte>, c: seq<byte>, d: seq<byte>)
    requires a + b == c + d && |b| == |d|
    ensures a == c && b == d
  {
    assert a == (a + b)[..|a|] && b == (a + b)[|a|..];
    assert c == (c + d)[..|c|] && d == (c + d)[|c|..];
  }

  /** The naming string tells the name and the links of a file. */
  lemma NamingTells(f: File, g: File)
    requires IsFile(f) && IsFile(g) && FileNaming(f.name, f.data) == FileNaming(g.name, g.data)
    ensures f.name == g.name && NumberOfBlocks(|f.data|) == NumberOfBlocks(|g.data|)
    ensures Links(f.data, NumberOfBlocks(|f.data|)) == Links(g.data, NumberOfBlocks(|f.data|))
  {
    hide Links;
    hide StrField;
    hide FileNaming;
    hide Flat;
    var nb := NumberOfBlocks(|f.data|);
    var ls, ls' := Links(f.data, nb), Links(g.data, NumberOfBlocks(|g.data|));
    NamingText(f);
    NamingText(g);
    assert NumberOfBlocks(|g.data|) == nb;
    LinksAreText(f.data, nb);
    LinksAreText(g.data, nb);
    SameField(f.name + Flat(ls), g.name + Flat(ls'), ResultSize(nb));
    SplitAt(f.name, Flat(ls), g.name, Flat(ls'));
    SameFlat(ls, ls', ENCODED_HASH_LENGTH);
  }

  // ----- Which files can be got back

  ghost predicate NoneCollide(fs: seq<File>)
    requires AreFiles(fs)
  {
    NoCollisions(ImagesOf(AllBlocks(fs))) && NoCollisions(BasesOf(AllBlocks(fs)))
  }

  /** The naming string of no file is a chunk of one. */
  ghost predicate NoClash(fs: seq<File>)
    requires AreFiles(fs)
  {
    forall f, g, i: nat | f in fs && g in fs && i < NumberOfBlocks(|g.data|) :: !Clash(f, g, i)
  }

  ghost predicate Clash(f: File, g: File, i: nat)
    requires IsFile(f)
  {
    Chunk(g.data, i) == FileNaming(f.name, f.data)
  }

  lemma SameImageSameBase(f: File, i: nat, x: Block, g: File, j: nat, y: Block)
    requires IsFile(f) && IsFile(g) && IsBlock(f, i, x) && IsBlock(g, j, y) && x.image == y.image
    ensures x.base == y.base
  {
    hide FileImage;
    hide FileNaming;
    hide Chunk;
    hide Image;
    var m, n := NumberOfBlocks(|f.data|), NumberOfBlocks(|g.data|);
    if i < m && j < n {
      ImageOfChunk(f.data, i);
      ImageOfChunk(g.data, j);
      ChunkImages(Chunk(f.data, i), Chunk(g.data, j));
    } else if i < m {
      KindsDiffer(g, f.data, i);
    } else if j < n {
      KindsDiffer(f, g.data, j);
    } else {
      SameParent(f, g);
    }
  }

  lemma AreWellNamed(fs: seq<File>)
    requires AreFiles(fs) && NoneCollide(fs)
    ensures WellNamed(AllBlocks(fs))
  {
    hide IsBlock;
    hide NoCollisions;
    hide Blocks;
    hide AllBlocks;
    var bs := AllBlocks(fs);
    forall x, y | x in bs && y in bs && x.image == y.image
      ensures x.base == y.base
    {
      FileOf(fs, x);
      FileOf(fs, y);
      var f :| f in fs && x in Blocks(f);
      var g :| g in fs && y in Blocks(g);
      BlockAt(f, x);
      BlockAt(g, y);
      var i: nat :| IsBlock(f, i, x);
      var j: nat :| IsBlock(g, j, y);
      SameImageSameBase(f, i, x, g, j, y);
    }
  }

  lemma BlockOfFile(fs: seq<File>, f: File, i: nat)
    requires AreFiles(fs) && f in fs && i <= NumberOfBlocks(|f.data|)
    ensures var b := FileBlock(f, i);
            b in AllBlocks(fs) && IsBlock(f, i, b) && b.image in ImagesOf(AllBlocks(fs)) && b.base in BasesOf(AllBlocks(fs))
  {
    hide Blocks;
    hide AllBlocks;
    hide IsBlock;
    var b := FileBlock(f, i);
    IsFileBlock(f, i);
    BlockAt(f, b);
    FileOf(fs, b);
  }

  ghost function FileBlock(f: File, i: nat): Block
    requires IsFile(f)
  {
    if i < NumberOfBlocks(|f.data|) then Block(ChunkImage(f.data, i), Chunk(f.data, i))
    else Block(FileImage(f.name, f.data), FileNaming(f.name, f.data))
  }

  lemma IsFileBlock(f: File, i: nat)
    requires IsFile(f) && i <= NumberOfBlocks(|f.data|)
    ensures IsBlock(f, i, FileBlock(f, i))
  {
  }

  /** Without collisions, the links of a file determine its data. */
  lemma SameLinksSameData(fs: seq<File>, f: File, g: File)
    requires AreFiles(fs) && NoneCollide(fs) && f in fs && g in fs
    requires NumberOfBlocks(|f.data|) == NumberOfBlocks(|g.data|)
    requires Links(f.data, NumberOfBlocks(|f.data|)) == Links(g.data, NumberOfBlocks(|f.data|))
    ensures f.data == g.data
  {
    hide AllBlocks;
    hide Chunk;
    hide Cid;
    hide Sha256;
    hide Image;
    hide Flat;
    var nb := NumberOfBlocks(|f.data|);
    forall i: nat | i < nb
      ensures Chunk(f.data, i) == Chunk(g.data, i)
    {
      assert Links(f.data, nb)[i] == Links(g.data, nb)[i];
      BlockOfFile(fs, f, i);
      BlockOfFile(fs, g, i);
      ImageOfChunk(f.data, i);
      ImageOfChunk(g.data, i);
      NamesAreDigests(ChunkImage(f.data, i), ChunkImage(g.data, i));
      ChunkImages(Chunk(f.data, i), Chunk(g.data, i));
    }
    assert Dag.Chunks(f.data, nb) == Dag.Chunks(g.data, nb);
    ChunksOfFile(f.data);
    ChunksOfFile(g.data);
  }

  /** Two blocks share a name only if they are the same, or a chunk is a naming string. */
  lemma SameBaseSameImage(fs: seq<File>, f: File, i: nat, x: Block, g: File, j: nat, y: Block)
    requires AreFiles(fs) && NoneCollide(fs) && f in fs && g in fs
    requires IsBlock(f, i, x) && IsBlock(g, j, y) && x.base == y.base
    requires j < NumberOfBlocks(|g.data|) ==> !Clash(f, g, j)
    requires i < NumberOfBlocks(|f.data|) ==> !Clash(g, f, i)
    ensures x.image == y.image
  {
    hide FileImage;
    hide FileNaming;
    hide Chunk;
    hide Image;
    hide NoneCollide;
    var m, n := NumberOfBlocks(|f.data|), NumberOfBlocks(|g.data|);
    if i < m && j < n {
      ImageOfChunk(f.data, i);
      ImageOfChunk(g.data, j);
    } else if i == m && j == n {
      NamingTells(f, g);
      SameLinksSameData(fs, f, g);
      assert f == g;
    }
  }

  lemma NamesApart(fs: seq<File>)
    requires AreFiles(fs) && NoneCollide(fs) && NoClash(fs)
    ensures Apart(AllBlocks(fs))
  {
    hide IsBlock;
    hide NoneCollide;
    hide Blocks;
    hide AllBlocks;
    hide Clash;
    var bs := AllBlocks(fs);
    forall x, y | x in bs && y in bs && x.base == y.base
      ensures x.image == y.image
    {
      FileOf(fs, x);
      FileOf(fs, y);
      var f :| f in fs && x in Blocks(f);
      var g :| g in fs && y in Blocks(g);
      BlockAt(f, x);
      BlockAt(g, y);
      var i: nat :| IsBlock(f, i, x);
      var j: nat :| IsBlock(g, j, y);
      assert j < NumberOfBlocks(|g.data|) ==> !Clash(f, g, j);
      assert i < NumberOfBlocks(|f.data|) ==> !Clash(g, f, i);
      SameBaseSameImage(fs, f, i, x, g, j, y);
    }
  }

  ghost predicate AllComplete(w: World, fs: seq<File>)
    requires AreFiles(fs)
  {
    forall f | f in fs :: Complete(w, f.name, f.data)
  }

  /** A block of a complete file, if it is read, was the last under its name. */
  lemma CompleteIsLast(w: World, fs: seq<File>, f: File, i: nat)
    requires AreFiles(fs) && NoneCollide(fs) && f in fs && Complete(AddedAll(w, fs), f.name, f.data)
    requires i == NumberOfBlocks(|f.data|) || (i < NumberOfBlocks(|f.data|) && i < MAX_LINKS)
    ensures LastImage(AllBlocks(fs), FileBlock(f, i).base) == Some(FileBlock(f, i).image)
  {
    hide AllBlocks;
    hide PutAll;
    hide LastImage;
    hide Stored;
    hide AddedAll;
    hide NoneCollide;
    hide ChunkImage;
    hide Cid;
    AreWellNamed(fs);
    AddedAllWrites(w, fs);
    BlockOfFile(fs, f, i);
    StoredIfLast(w, AllBlocks(fs), FileBlock(f, i));
  }

  /** A chunk that is a naming string is one that is read. */
  lemma ClashIsRead(f: File, g: File, i: nat)
    requires IsFile(f) && IsFile(g) && i < NumberOfBlocks(|g.data|) && Clash(f, g, i)
    ensures i < MAX_LINKS
  {
    hide FileNaming;
    NamingText(f);
    if i >= MAX_LINKS {
      LastLink(g.data);
    }
  }

  /** After any number of files were added to an undisturbed store, in any order and with
      any chunks in common, all of them can be got back if and only if the naming string of
      none of them is a chunk of one. */
  lemma AllGettable(w: World, fs: seq<File>)
    requires AreFiles(fs) && NoneCollide(fs)
    ensures AllComplete(AddedAll(w, fs), fs) <==> NoClash(fs)
  {
    hide NoneCollide;
    hide Complete;
    hide AddedAll;
    hide Clash;
    if NoClash(fs) {
      forall f | f in fs
        ensures Complete(AddedAll(w, fs), f.name, f.data)
      {
        NoClashIsComplete(w, fs, f);
      }
    }
    if AllComplete(AddedAll(w, fs), fs) {
      forall f, g, i: nat | f in fs && g in fs && i < NumberOfBlocks(|g.data|)
        ensures !Clash(f, g, i)
      {
        if Clash(f, g, i) {
          ClashLoses(w, fs, f, g, i);
        }
      }
    }
  }

  lemma NoClashIsComplete(w: World, fs: seq<File>, f: File)
    requires AreFiles(fs) && NoneCollide(fs) && NoClash(fs) && f in fs
    ensures Complete(AddedAll(w, fs), f.name, f.data)
  {
    hide AllBlocks;
    hide PutAll;
    hide Stored;
    hide AddedAll;
    hide NoneCollide;
    hide NoClash;
    hide Apart;
    hide ChunkImage;
    hide FileImage;
    hide Cid;
    var bs, nb := AllBlocks(fs), NumberOfBlocks(|f.data|);
    AreWellNamed(fs);
    AddedAllWrites(w, fs);
    NamesApart(fs);
    AllStored(w, bs);
    BlockOfFile(fs, f, nb);
    forall i: nat | i < nb
      ensures Stored(AddedAll(w, fs), Cid(ChunkImage(f.data, i)))
    {
      BlockOfFile(fs, f, i);
      assert FileBlock(f, i).image == ChunkImage(f.data, i);
    }
    assert FileBlock(f, nb).image == FileImage(f.name, f.data);
  }

  lemma ClashLoses(w: World, fs: seq<File>, f: File, g: File, i: nat)
    requires AreFiles(fs) && NoneCollide(fs) && f in fs && g in fs && i < NumberOfBlocks(|g.data|) && Clash(f, g, i)
    ensures !Complete(AddedAll(w, fs), f.name, f.data) || !Complete(AddedAll(w, fs), g.name, g.data)
  {
    hide AllBlocks;
    hide LastImage;
    hide AddedAll;
    hide NoneCollide;
    hide Complete;
    hide ChunkImage;
    hide FileImage;
    if Complete(AddedAll(w, fs), f.name, f.data) && Complete(AddedAll(w, fs), g.name, g.data) {
      ClashIsRead(f, g, i);
      CompleteIsLast(w, fs, f, NumberOfBlocks(|f.data|));
      CompleteIsLast(w, fs, g, i);
      KindsDiffer(f, g.data, i);
    }
  }

  // ----- Inputs that meet the conditions

  /** Only a chunk that contains its own identifier can be the naming string of its own file. */
  lemma OwnClash(f: File, i: nat)
    requires IsFile(f) && i < NumberOfBlocks(|f.data|) && Clash(f, f, i)
    ensures var p := |f.name| + ENCODED_HASH_LENGTH * i;
            var c := Chunk(f.data, i);
            p + ENCODED_HASH_LENGTH <= |c| && c[p..p + ENCODED_HASH_LENGTH] == Cid(Image(ChunkNode(c)))
  {
    hide Cid;
    hide Chunk;
    hide Image;
    hide FileNaming;
    var nb := NumberOfBlocks(|f.data|);
    var ls := Links(f.data, nb);
    NamingText(f);
    LinksAreText(f.data, nb);
    FlatSlice(ls, ENCODED_HASH_LENGTH, i);
    TextSlice(f.name, Flat(ls), Memory.Zeros(ResultSize(nb) - |f.name + Flat(ls)|), ENCODED_HASH_LENGTH * i, ENCODED_HASH_LENGTH);
  }

  lemma TextSlice(a: seq<byte>, b: seq<byte>, c: seq<byte>, p: nat, n: nat)
    requires p + n <= |b|
    ensures (a + b + c)[|a| + p..|a| + p + n] == b[p..p + n]
  {
  }

  lemma LastOfTwo(bs: seq<Block>, x: Block, y: Block)
    requires y.base != x.base
    ensures LastImage(bs + [x] + [y], x.base) == Some(x.image)
  {
    assert (bs + [x] + [y])[..|bs| + 1] == bs + [x];
  }

  /** The blocks of a file of one chunk, after those of another file. */
  lemma TwoFiles(f: File, g: File)
    requires IsFile(f) && IsFile(g) && |g.data| < BLOCK_LIMIT
    ensures AllBlocks([f, g]) == AllBlocks([f]) + [FileBlock(g, 0)] + [FileBlock(g, 1)]
  {
    hide ChunkImage;
    hide FileImage;
    hide FileNaming;
    hide Chunk;
    assert [f, g][..1] == [f];
    assert NumberOfBlocks(|g.data|) == 1;
    BlocksOfFile(g.name, g.data);
    assert Blocks(g) == [FileBlock(g, 0)] + [FileBlock(g, 1)];
    assert AllBlocks([f, g]) == AllBlocks([f]) + Blocks(g);
  }

  lemma LaterChunkWins(w: World, f: File, g: File)
    requires IsFile(f) && IsFile(g) && |g.data| < BLOCK_LIMIT && Clash(f, g, 0) && AreFiles([f, g])
    requires FileNaming(g.name, g.data) != FileNaming(f.name, f.data) && NoneCollide([f, g])
    ensures !Complete(AddedAll(w, [f, g]), f.name, f.data)
  {
    hide NoneCollide;
    hide Complete;
    hide AddedAll;
    hide AllBlocks;
    hide LastImage;
    hide FileNaming;
    hide FileImage;
    hide ChunkImage;
    if Complete(AddedAll(w, [f, g]), f.name, f.data) {
      assert f in [f, g] && NumberOfBlocks(|g.data|) == 1;
      CompleteIsLast(w, [f, g], f, NumberOfBlocks(|f.data|));
      TwoFiles(f, g);
      LastOfTwo(AllBlocks([f]), FileBlock(g, 0), FileBlock(g, 1));
      KindsDiffer(f, g.data, 0);
    }
  }

  lemma NamingIsFile(f: File, g: File)
    requires IsFile(f) && IsFilename(g.name) && g.data == FileNaming(f.name, f.data)
    ensures IsFile(g) && |g.data| < BLOCK_LIMIT && Clash(f, g, 0)
  {
    hide FileNaming;
    NamingText(f);
    SmallFile(g.data);
  }

  /** A file whose content is the naming string of another one, added after it, takes its
      parent block away. */
  lemma NamingAsContent(w: World, f: File, g: File)
    requires IsFile(f) && IsFilename(g.name) && g.data == FileNaming(f.name, f.data)
    ensures IsFile(g) && !NoClash([f, g])
    ensures NoneCollide([f, g]) ==> !Complete(AddedAll(w, [f, g]), f.name, f.data)
  {
    hide NoneCollide;
    hide Complete;
    hide AddedAll;
    hide FileNaming;
    hide AllBlocks;
    hide Clash;
    NamingIsFile(f, g);
    var fs := [f, g];
    assert f in fs && g in fs && 0 < NumberOfBlocks(|g.data|);
    if NoneCollide(fs) {
      if FileNaming(g.name, g.data) == FileNaming(f.name, f.data) {
        NamingTells(f, g);
        SameLinksSameData(fs, f, g);
        ClashLoses(w, fs, f, g, 0);
      } else {
        LaterChunkWins(w, f, g);
      }
    }
  }

  lemma SmallFile(data: seq<byte>)
    requires |data| < BLOCK_LIMIT
    ensures NumberOfBlocks(|data|) == 1 && Chunk(data, 0) == data
  {
  }

  // ----- Adding and getting

  /** The name of the file is that of one of its own blocks. */
  ghost predicate OwnBlock(target: Option<seq<byte>>, data: seq<byte>) {
    exists i: nat | i < NumberOfBlocks(|data|) && i < MAX_LINKS :: target == Some(BlockName(Chunk(data, i)) + DAT)
  }

  /** A file shorter than a chunk, if it is added under the name of the block it becomes. */
  lemma NamedAsItsBlock(data: seq<byte>)
    requires |data| < BLOCK_LIMIT
    ensures OwnBlock(Some(BlockName(data) + DAT), data)
  {
    hide BlockName;
    SmallFile(data);
  }

  lemma InTheWayIsOwnBlock(w: World, fs: seq<File>, f: File, target: Option<seq<byte>>)
    requires AreFiles(fs) && NoneCollide(fs) && f in fs
    ensures InTheWay(AddedAll(w, fs), target, f.data) <==> OwnBlock(target, f.data)
  {
    hide AllBlocks;
    hide PutAll;
    hide AddedAll;
    hide NoneCollide;
    hide ChunkImage;
    hide Chunk;
    hide Cid;
    hide BlockName;
    hide Stored;
    AreWellNamed(fs);
    AddedAllWrites(w, fs);
    forall i: nat | i < NumberOfBlocks(|f.data|)
      ensures var cid := Cid(ChunkImage(f.data, i));
              && cid in AddedAll(w, fs).registry
              && AddedAll(w, fs).registry[cid] == BlockName(Chunk(f.data, i)) + DAT
    {
      BlockOfFile(fs, f, i);
      StoredIfLast(w, AllBlocks(fs), FileBlock(f, i));
    }
  }

  method AddAll(store: Store, fs: seq<File>) returns (cids: seq<seq<byte>>)
    requires AreFiles(fs)
    modifies store`registry, store`files
    ensures store.Now() == AddedAll(old(store.Now()), fs)
    ensures |cids| == |fs| && forall n | 0 <= n < |fs| :: IsFile(fs[n]) && cids[n] == FileCid(fs[n].name, fs[n].data)
  {
    hide Added;
    hide FileCid;
    cids := [];
    for n := 0 to |fs|
      invariant store.Now() == AddedAll(old(store.Now()), fs[..n])
      invariant |cids| == n && forall k | 0 <= k < n :: IsFile(fs[k]) && cids[k] == FileCid(fs[k].name, fs[k].data)
    {
      assert IsFile(fs[n]) && fs[..n + 1][..n] == fs[..n];
      var cid := AddTnfsFile(store, fs[n].name, fs[n].data);
      cids := cids + [cid.value];
    }
    assert fs[..|fs|] == fs;
  }

  lemma ImagesAmong(fs: seq<File>, f: File)
    requires AreFiles(fs) && f in fs
    ensures Images(f.name, f.data) <= ImagesOf(AllBlocks(fs))
  {
    hide FileBlocks;
    hide AllBlocks;
    forall b | b in Blocks(f)
      ensures b in AllBlocks(fs)
    {
      FileOf(fs, b);
    }
  }

  lemma AddedAllFaithful(w: World, fs: seq<File>, f: File)
    requires AreFiles(fs) && NoneCollide(fs) && f in fs && Faithful(w, ImagesOf(AllBlocks(fs)))
    ensures Faithful(AddedAll(w, fs), Images(f.name, f.data))
  {
    hide AllBlocks;
    hide PutAll;
    hide AddedAll;
    hide Images;
    hide ImagesOf;
    hide Sha256;
    AddedAllWrites(w, fs);
    PutAllFaithful(w, AllBlocks(fs), ImagesOf(AllBlocks(fs)));
    ImagesAmong(fs, f);
  }

  /** Nobody else is at work, and no digests collide. */
  ghost predicate Peaceful(store: Store, fs: seq<File>)
    requires AreFiles(fs)
    reads store
  {
    store.script == [] && NoneCollide(fs) && Faithful(store.Now(), ImagesOf(AllBlocks(fs)))
  }

  /** Nor do they when the output file is one of the block files. */
  ghost predicate OutputApart(target: Option<seq<byte>>, f: File)
    requires IsFile(f)
  {
    target.Some? ==> PrefixesApart(f.data, Images(f.name, f.data))
  }

  /** What getting a complete file ends with: the program exits if the output file takes the
      place of a block that is still to be read. */
  ghost function Returned(target: Option<seq<byte>>, f: File): Outcome {
    if OwnBlock(target, f.data) then Exited else Intended(f.name, f.data)
  }

  /** Getting a file from a store in which its blocks may or may not be. */
  method GetAdded(store: Store, cid: seq<byte>, ghost f: File, ghost fs: seq<File>) returns (out: Outcome)
    requires AreFiles(fs) && f in fs && NoneCollide(fs) && IsFile(f) && cid == FileCid(f.name, f.data)
    requires store.script == [] && exists w :: store.Now() == AddedAll(w, fs) && Faithful(w, ImagesOf(AllBlocks(fs)))
    requires OutputApart(store.blockOf(f.name), f)
    modifies store
    ensures out == if Complete(old(store.Now()), f.name, f.data) then Returned(store.blockOf(f.name), f) else Exited
  {
    hide Images;
    hide Faithful;
    hide NoneCollide;
    hide Complete;
    hide InTheWay;
    hide OwnBlock;
    hide AddedAll;
    hide AllBlocks;
    hide FileCid;
    hide ImagesOf;
    hide PrefixesApart;
    ghost var w :| store.Now() == AddedAll(w, fs) && Faithful(w, ImagesOf(AllBlocks(fs)));
    AddedAllFaithful(w, fs, f);
    InTheWayIsOwnBlock(w, fs, f, store.blockOf(f.name));
    out := GetTnfsFile(store, cid, f.name, f.data);
  }

  /** With nobody else at work, any of the files that were added is given back, unless the
      naming string of one is a chunk of one, or its own name is in the way of its blocks. */
  method AddAllThenGet(store: Store, fs: seq<File>, n: nat) returns (out: Outcome)
    requires AreFiles(fs) && n < |fs| && IsFile(fs[n])
    requires Peaceful(store, fs) && OutputApart(store.blockOf(fs[n].name), fs[n])
    modifies store
    ensures NoClash(fs) ==> out == Returned(store.blockOf(fs[n].name), fs[n])
  {
    hide Faithful;
    hide NoneCollide;
    hide NoClash;
    hide Complete;
    hide OutputApart;
    hide AddedAll;
    hide AllBlocks;
    hide FileCid;
    hide ImagesOf;
    hide Returned;
    ghost var w := store.Now();
    if NoClash(fs) {
      NoClashIsComplete(w, fs, fs[n]);
    }
    var cids := AddAll(store, fs);
    out := GetAdded(store, cids[n], fs[n], fs);
  }

  /** With nobody else at work, a file that was just added is given back, exactly if its
      naming string is none of its chunks and its name is not in the way of its blocks. */
  method AddThenGet(store: Store, f: File) returns (out: Outcome)
    requires IsFile(f) && AreFiles([f])
    requires Peaceful(store, [f]) && OutputApart(store.blockOf(f.name), f)
    modifies store
    ensures out == if NoClash([f]) then Returned(store.blockOf(f.name), f) else Exited
  {
    hide Faithful;
    hide NoneCollide;
    hide NoClash;
    hide Complete;
    hide OutputApart;
    hide AddedAll;
    hide AllBlocks;
    hide FileCid;
    hide ImagesOf;
    hide Returned;
    AllGettable(store.Now(), [f]);
    assert f in [f];
    var cids := AddAll(store, [f]);
    out := GetAdded(store, cids[0], f, [f]);
  }
}

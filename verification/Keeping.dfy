/** Which of the blocks written to a store are still there: a later block may have taken
    the file name of an earlier one. */
module Keeping {
  import opened Bytes
  import opened Files
  import opened Dag
  import opened Sha256Spec

  ghost predicate NoCollisions(contents: set<seq<byte>>) {
    forall x, y | x in contents && y in contents :: Sha256(x) == Sha256(y) ==> x == y
  }

  ghost function ImagesOf(bs: seq<Block>): set<seq<byte>> {
    set b | b in bs :: b.image
  }

  ghost function BasesOf(bs: seq<Block>): set<seq<byte>> {
    set b | b in bs :: b.base
  }

  /** No digests collide, and an image has only one name. */
  ghost predicate WellNamed(bs: seq<Block>) {
    && NoCollisions(ImagesOf(bs)) && NoCollisions(BasesOf(bs))
    && forall x, y | x in bs && y in bs :: x.image == y.image ==> x.base == y.base
  }

  /** No name stands for two images. */
  ghost predicate Apart(bs: seq<Block>) {
    forall x, y | x in bs && y in bs :: x.base == y.base ==> x.image == y.image
  }

  /** The image that was written last under a name. */
  ghost function LastImage(bs: seq<Block>, base: seq<byte>): (image: Option<Contents>)
    ensures image.None? <==> forall b | b in bs :: b.base != base
    ensures image.Some? ==> exists b :: b in bs && b.base == base && b.image == image.value
  {
    if bs == [] then None
    else
      var last := bs[|bs| - 1];
      assert forall b :: b in bs <==> b in bs[..|bs| - 1] || b == last;
      if last.base == base then Some(last.image) else LastImage(bs[..|bs| - 1], base)
  }

  /** A block's identifier is registered, and its file has a given content. */
  ghost predicate Holds(w: World, b: Block, content: Contents) {
    var name := BlockName(b.base) + DAT;
    && Cid(b.image) in w.registry && w.registry[Cid(b.image)] == name
    && name in w.files && w.files[name] == content
  }

  lemma PutHolds(w: World, b: Block)
    ensures Holds(Put(w, b.image, b.base), b, b.image)
  {
    hide Cid;
    hide BlockName;
  }

  /** What another block does to the file of a block. */
  lemma PutOther(w: World, b: Block, content: Contents, other: Block)
    requires Holds(w, b, content)
    requires Sha256(other.image) == Sha256(b.image) ==> other.base == b.base
    requires Sha256(other.base) == Sha256(b.base) ==> other.base == b.base
    ensures Holds(Put(w, other.image, other.base), b, if other.base == b.base then other.image else content)
  {
    hide Cid;
    hide BlockName;
    hide Sha256;
    NamesAreDigests(other.image, b.image);
    NamesAreDigests(other.base, b.base);
    assert (BlockName(b.base) + DAT)[..HASH_LENGTH] == BlockName(b.base);
    assert (BlockName(other.base) + DAT)[..HASH_LENGTH] == BlockName(other.base);
  }

  lemma WellNamedPrefix(bs: seq<Block>, n: nat)
    requires WellNamed(bs) && n <= |bs|
    ensures WellNamed(bs[..n])
  {
    hide Sha256;
    assert forall b :: b in bs[..n] ==> b in bs;
    assert ImagesOf(bs[..n]) <= ImagesOf(bs) && BasesOf(bs[..n]) <= BasesOf(bs);
  }

  lemma TwoBlocks(bs: seq<Block>, x: Block, y: Block)
    requires WellNamed(bs) && x in bs && y in bs
    ensures Sha256(x.image) == Sha256(y.image) ==> x.image == y.image && x.base == y.base
    ensures Sha256(x.base) == Sha256(y.base) ==> x.base == y.base
  {
    hide Sha256;
    assert x.image in ImagesOf(bs) && y.image in ImagesOf(bs);
    assert x.base in BasesOf(bs) && y.base in BasesOf(bs);
  }

  /** The file of a block holds the image that was written last under its name. */
  lemma {:induction false} FileOfBlock(w: World, bs: seq<Block>, b: Block)
    requires WellNamed(bs) && b in bs
    ensures LastImage(bs, b.base).Some? && Holds(PutAll(w, bs), b, LastImage(bs, b.base).value)
  {
    hide Put;
    hide Holds;
    hide WellNamed;
    hide Sha256;
    var n := |bs| - 1;
    var last := bs[n];
    TwoBlocks(bs, last, b);
    if b in bs[..n] {
      WellNamedPrefix(bs, n);
      FileOfBlock(w, bs[..n], b);
      PutOther(PutAll(w, bs[..n]), b, LastImage(bs[..n], b.base).value, last);
    } else {
      assert b == last;
      PutHolds(PutAll(w, bs[..n]), b);
    }
  }

  /** A block can be read if and only if its image was the last under its name. */
  lemma StoredIfLast(w: World, bs: seq<Block>, b: Block)
    requires WellNamed(bs) && b in bs
    ensures Stored(PutAll(w, bs), Cid(b.image)) <==> LastImage(bs, b.base) == Some(b.image)
    ensures Cid(b.image) in PutAll(w, bs).registry && PutAll(w, bs).registry[Cid(b.image)] == BlockName(b.base) + DAT
  {
    hide Cid;
    hide BlockName;
    hide PutAll;
    hide LastImage;
    hide WellNamed;
    hide Sha256;
    FileOfBlock(w, bs, b);
    var last :| last in bs && last.base == b.base && last.image == LastImage(bs, b.base).value;
    TwoBlocks(bs, last, b);
    NamesAreDigests(last.image, b.image);
    assert |BlockName(b.base) + DAT| != |NULL_NAME|;
  }

  /** All blocks can be read, repeated ones included, if and only if no name stands for two
      images. */
  lemma AllStored(w: World, bs: seq<Block>)
    requires WellNamed(bs)
    ensures (forall b | b in bs :: Stored(PutAll(w, bs), Cid(b.image))) <==> Apart(bs)
  {
    hide Cid;
    hide PutAll;
    hide WellNamed;
    hide Stored;
    hide LastImage;
    forall b | b in bs
      ensures Stored(PutAll(w, bs), Cid(b.image)) <==> LastImage(bs, b.base) == Some(b.image)
    {
      StoredIfLast(w, bs, b);
    }
    forall b | b in bs && Apart(bs)
      ensures LastImage(bs, b.base) == Some(b.image)
    {
      var last :| last in bs && last.base == b.base && last.image == LastImage(bs, b.base).value;
    }
    if forall b | b in bs :: Stored(PutAll(w, bs), Cid(b.image)) {
      forall x, y | x in bs && y in bs && x.base == y.base
        ensures x.image == y.image
      {
        assert Stored(PutAll(w, bs), Cid(x.image)) && Stored(PutAll(w, bs), Cid(y.image));
      }
    }
  }

  /** Writing blocks brings no file into the store that collides with them. */
  lemma {:induction false} PutAllFaithful(w: World, bs: seq<Block>, images: set<seq<byte>>)
    requires Faithful(w, images) && NoCollisions(images) && ImagesOf(bs) <= images
    ensures Faithful(PutAll(w, bs), images)
  {
    hide Cid;
    hide BlockName;
    hide Sha256;
    if bs != [] {
      var n := |bs| - 1;
      assert bs[n].image in ImagesOf(bs);
      assert forall b :: b in bs[..n] ==> b in bs;
      PutAllFaithful(w, bs[..n], images);
    }
  }
}

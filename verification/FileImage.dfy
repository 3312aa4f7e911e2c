// The file system image of mp3/student-distrib/file_sys.h, and what a file in it
// contains: one flat sequence of bytes, spread over data blocks in any order.
module FileImage {
  import opened Bytes
  import opened CStrings
  import opened Limits

  const BLOCK_SIZE := 4096
  const FILENAME_LEN := 32
  const NUM_DNODE_PER_INODE := 1023

  datatype Inode = Inode(length: int, blocks: seq<int>)

  /** A directory entry: the 32 bytes of its name, and the memory after them as far
      as a NUL, which is where strlen stops on a name that fills all 32. */
  datatype Dentry = Dentry(name: seq<Byte>, tail: seq<Byte>, filetype: int, inode: int)

  /** `data` is the region of data blocks that follows the inodes. */
  datatype Image = Image(dir: seq<Dentry>, inodes: seq<Inode>, data: seq<Byte>)

  /** Every block that the length needs is a data block of the image. */
  ghost predicate WellFormedInode(node: Inode, dataLength: int) {
    && |node.blocks| == NUM_DNODE_PER_INODE && 0 <= node.length <= NUM_DNODE_PER_INODE * BLOCK_SIZE
    && forall b | 0 <= b < NUM_DNODE_PER_INODE && b * BLOCK_SIZE < node.length ::
         0 <= node.blocks[b] && (node.blocks[b] + 1) * BLOCK_SIZE <= dataLength
  }

  ghost predicate WellFormed(img: Image) {
    && (forall i | 0 <= i < |img.inodes| :: WellFormedInode(img.inodes[i], |img.data|))
    && (forall d | 0 <= d < |img.dir| :: |img.dir[d].name| == FILENAME_LEN && NUL in img.dir[d].tail)
  }

  /** The file, byte k of which lies in block k / 4096 at k % 4096. */
  ghost function Content(node: Inode, data: seq<Byte>): (content: seq<Byte>)
    requires WellFormedInode(node, |data|)
    ensures |content| == node.length
  {
    seq(node.length, k requires 0 <= k < node.length =>
      data[node.blocks[k / BLOCK_SIZE] * BLOCK_SIZE + k % BLOCK_SIZE])
  }

  /** The first n data blocks of a file, one after the other. */
  ghost function Joined(node: Inode, data: seq<Byte>, n: nat): seq<Byte>
    requires WellFormedInode(node, |data|) && n <= NUM_DNODE_PER_INODE && (n > 0 ==> (n - 1) * BLOCK_SIZE < node.length)
  {
    if n == 0 then []
    else Joined(node, data, n - 1) + data[node.blocks[n - 1] * BLOCK_SIZE..(node.blocks[n - 1] + 1) * BLOCK_SIZE]
  }

  lemma {:induction false} JoinedAt(node: Inode, data: seq<Byte>, n: nat, k: nat)
    requires WellFormedInode(node, |data|) && n <= NUM_DNODE_PER_INODE && (n > 0 ==> (n - 1) * BLOCK_SIZE < node.length)
    ensures |Joined(node, data, n)| == n * BLOCK_SIZE
    ensures k < n * BLOCK_SIZE && k < node.length ==> Joined(node, data, n)[k] == Content(node, data)[k]
  {
    if n > 0 {
      JoinedAt(node, data, n - 1, k);
      if (n - 1) * BLOCK_SIZE <= k < n * BLOCK_SIZE {
        assert k / BLOCK_SIZE == n - 1 && k % BLOCK_SIZE == k - (n - 1) * BLOCK_SIZE;
      }
    }
  }

  /** The content is the file's blocks put together and cut to its length. */
  lemma ContentIsItsBlocks(node: Inode, data: seq<Byte>, n: nat)
    requires WellFormedInode(node, |data|) && n == (node.length + BLOCK_SIZE - 1) / BLOCK_SIZE
    ensures n <= NUM_DNODE_PER_INODE && node.length <= |Joined(node, data, n)| < node.length + BLOCK_SIZE
    ensures Content(node, data) == Joined(node, data, n)[..node.length]
  {
    JoinedAt(node, data, n, 0);
    forall k | 0 <= k < node.length ensures Joined(node, data, n)[k] == Content(node, data)[k] {
      JoinedAt(node, data, n, k);
    }
  }

  /** At most `length` bytes from `offset`, as far as the content goes. */
  function Chunk(content: seq<Byte>, offset: nat, length: nat): seq<Byte> {
    content[Min(offset, |content|)..Min(offset + length, |content|)]
  }

  /** The bytes a read hands over: none for an inode that does not exist. */
  ghost function Served(img: Image, inode: nat, offset: nat, length: nat): seq<Byte>
    requires WellFormed(img)
  {
    if inode < |img.inodes| then Chunk(Content(img.inodes[inode], img.data), offset, length) else []
  }

  // ----- reading in pieces -----

  function Sum(sizes: seq<nat>): nat {
    if sizes == [] then 0 else sizes[0] + Sum(sizes[1..])
  }

  /** The bytes of successive reads of the given sizes, each from where the one
      before it stopped. */
  function InPieces(content: seq<Byte>, position: nat, sizes: seq<nat>): seq<Byte>
    decreases sizes
  {
    if sizes == [] then []
    else
      var first := Chunk(content, position, sizes[0]);
      first + InPieces(content, position + |first|, sizes[1..])
  }

  /** Reading in pieces of any sizes is reading all at once. */
  lemma {:induction false} PiecesMakeOneRead(content: seq<Byte>, position: nat, sizes: seq<nat>)
    ensures InPieces(content, position, sizes) == Chunk(content, position, Sum(sizes))
    decreases sizes
  {
    if sizes == [] {
    } else {
      var first := Chunk(content, position, sizes[0]);
      PiecesMakeOneRead(content, position + |first|, sizes[1..]);
      ChunksJoin(content, position, sizes[0], Sum(sizes[1..]));
    }
  }

  /** Pieces that reach the end give the whole rest of the file, and the next read
      of any size gives nothing; a next read that asks for something and gives
      nothing means that the end is reached. */
  lemma PiecesReachTheEnd(content: seq<Byte>, position: nat, sizes: seq<nat>, more: nat)
    requires position <= |content| && more > 0
    ensures position + Sum(sizes) >= |content| <==> InPieces(content, position, sizes) == content[position..]
    ensures position + Sum(sizes) >= |content| <==>
      Chunk(content, position + |InPieces(content, position, sizes)|, more) == []
  {
    PiecesMakeOneRead(content, position, sizes);
  }

  /** The reads up to number k and those from k on. */
  lemma {:induction false} PiecesSplit(content: seq<Byte>, position: nat, sizes: seq<nat>, k: nat)
    requires k <= |sizes|
    ensures var front := InPieces(content, position, sizes[..k]);
      InPieces(content, position, sizes) == front + InPieces(content, position + |front|, sizes[k..])
    decreases sizes
  {
    hide Chunk;
    if k == 0 {
      assert sizes[0..] == sizes;
    } else {
      PiecesSplit(content, position + |Chunk(content, position, sizes[0])|, sizes[1..], k - 1);
      assert sizes[..k][1..] == sizes[1..][..k - 1] && sizes[1..][k - 1..] == sizes[k..];
    }
  }

  lemma NoPieces(content: seq<Byte>, position: nat, sizes: seq<nat>)
    ensures InPieces(content, position, sizes[..0]) == []
  {
  }

  lemma SlicesJoin(content: seq<Byte>, from: nat, mid: nat, to: nat)
    requires from <= mid <= to <= |content|
    ensures content[from..mid] + content[mid..to] == content[from..to]
  {
  }

  /** One more read after k of them; its bytes are part of the whole. */
  lemma PiecesNext(content: seq<Byte>, position: nat, sizes: seq<nat>, k: nat)
    requires k < |sizes|
    ensures var front := InPieces(content, position, sizes[..k]);
      var next := Chunk(content, position + |front|, sizes[k]);
      && InPieces(content, position, sizes[..k + 1]) == front + next
      && |front| + |next| <= |InPieces(content, position, sizes)|
  {
    hide Chunk;
    PiecesSplit(content, position, sizes[..k + 1], k);
    PiecesSplit(content, position, sizes, k);
    assert sizes[..k + 1][..k] == sizes[..k] && sizes[..k + 1][k..] == [sizes[k]];
    assert [sizes[k]][1..] == [];
  }

  /** Laying two pieces one after the other is laying their concatenation. */
  lemma StoredTwice(s: seq<Byte>, at: nat, first: seq<Byte>, second: seq<Byte>)
    requires at + |first| + |second| <= |s|
    ensures Stored(Stored(s, at, first), at + |first|, second) == Stored(s, at, first + second)
  {
  }

  lemma ChunkInside(content: seq<Byte>, position: nat, n: nat)
    requires position <= |content|
    ensures |Chunk(content, position, n)| == Min(n, |content| - position)
    ensures Chunk(content, position, n) == content[position..position + |Chunk(content, position, n)|]
  {
  }

  lemma StoredFront(s: seq<Byte>, text: seq<Byte>)
    requires |text| <= |s|
    ensures Stored(s, 0, text)[..|text|] == text
  {
  }

  lemma ChunksJoin(content: seq<Byte>, position: nat, m: nat, n: nat)
    ensures var first := Chunk(content, position, m);
      first + Chunk(content, position + |first|, n) == Chunk(content, position, m + n)
  {
  }

  /** s with n bytes of the content from `from` laid over it from `at`. */
  ghost function Laid(s: seq<Byte>, at: nat, content: seq<Byte>, from: nat, n: nat): seq<Byte>
    requires from + n <= |content| && at + n <= |s|
  {
    Stored(s, at, content[from..from + n])
  }

  lemma LaidNext(s: seq<Byte>, at: nat, content: seq<Byte>, from: nat, n: nat)
    requires from + n < |content| && at + n < |s|
    ensures |Laid(s, at, content, from, n)| == |s|
    ensures Laid(s, at, content, from, n)[at + n := content[from + n]] == Laid(s, at, content, from, n + 1)
  {
  }

  lemma LaidNone(s: seq<Byte>, at: nat, content: seq<Byte>, from: nat)
    requires from <= |content| && at <= |s|
    ensures Laid(s, at, content, from, 0) == s
  {
  }

  /** Reading one more byte of a file that is being copied whole. */
  lemma OneMore(img: Image, i: nat, content: seq<Byte>, s: seq<Byte>, at: nat, p: nat)
    requires WellFormed(img) && i < |img.inodes| && content == Content(img.inodes[i], img.data)
    requires p <= |content| && at + |content| <= |s|
    ensures |Served(img, i, p, 1)| == if p < |content| then 1 else 0
    ensures |Laid(s, at, content, 0, p)| == |s|
    ensures Stored(Laid(s, at, content, 0, p), at + p, Served(img, i, p, 1))
         == Laid(s, at, content, 0, p + |Served(img, i, p, 1)|)
  {
    hide Content;
    if p < |content| {
      assert Chunk(content, p, 1) == [content[p]];
      LaidNext(s, at, content, 0, p);
    } else {
      assert Chunk(content, p, 1) == [];
    }
  }

  lemma LaidWhole(s: seq<Byte>, at: nat, content: seq<Byte>)
    requires at + |content| <= |s|
    ensures Laid(s, at, content, 0, |content|) == Stored(s, at, content)
  {
    assert content[0..|content|] == content;
  }

  /** How many bytes a read of an existing file hands over, and what they leave. */
  lemma LaidAll(node: Inode, data: seq<Byte>, s: seq<Byte>, at: nat, offset: nat, length: nat) returns (count: nat)
    requires WellFormedInode(node, |data|) && offset < node.length
    requires at + |Chunk(Content(node, data), offset, length)| <= |s|
    ensures count == |Chunk(Content(node, data), offset, length)| && at + count <= |s|
    ensures count <= length && offset + count <= node.length == |Content(node, data)|
    ensures count == length || offset + count == node.length
    ensures Laid(s, at, Content(node, data), offset, count) == Stored(s, at, Chunk(Content(node, data), offset, length))
  {
    count := Min(length, node.length - offset);
    assert Chunk(Content(node, data), offset, length) == Content(node, data)[offset..offset + count];
  }

  /** Position p of block number b is byte k of the file. */
  predicate Locates(b: int, p: int, k: int) {
    0 <= b && 0 <= p <= BLOCK_SIZE && b * BLOCK_SIZE + p == k
  }

  function BlockStart(node: Inode, b: int): int
    requires 0 <= b < |node.blocks|
  {
    node.blocks[b] * BLOCK_SIZE
  }

  lemma FirstByte(node: Inode, dataLength: int, k: nat)
    requires WellFormedInode(node, dataLength) && k < node.length
    ensures Locates(k / BLOCK_SIZE, k % BLOCK_SIZE, k) && 0 <= k / BLOCK_SIZE < |node.blocks|
  {
  }

  /** The end of a block that the file goes beyond is the start of its next one. */
  lemma NextBlock(node: Inode, dataLength: int, b: int, p: int, k: int)
    requires WellFormedInode(node, dataLength) && Locates(b, p, k) && k < node.length && p >= BLOCK_SIZE
    ensures 0 <= b + 1 < |node.blocks| && Locates(b + 1, 0, k)
  {
  }

  lemma NextByte(node: Inode, data: seq<Byte>, content: seq<Byte>, b: int, p: int, k: int)
    requires WellFormedInode(node, |data|) && content == Content(node, data)
    requires Locates(b, p, k) && k < node.length && p < BLOCK_SIZE
    ensures 0 <= k < |content| == node.length && 0 <= b < |node.blocks| && 0 <= p
    ensures 0 <= BlockStart(node, b) + p < |data| && data[BlockStart(node, b) + p] == content[k]
    ensures Locates(b, p + 1, k + 1)
  {
    assert k / BLOCK_SIZE == b && k % BLOCK_SIZE == p;
  }

  // ----- names -----

  /** What follows the 32 bytes does not matter once the length is capped. */
  lemma CappedLength(name: seq<Byte>, tail: seq<Byte>)
    ensures TextLength(name) == Min(TextLength(name + tail), |name|)
  {
    var n, m := TextLength(name), TextLength(name + tail);
    assert n < |name| ==> (name + tail)[n] == NUL;
    assert m < |name| ==> name[m] == NUL;
  }

  lemma WholeName(name: seq<Byte>, tail: seq<Byte>)
    requires NUL in tail
    ensures NUL in name + tail
  {
    var k :| 0 <= k < |tail| && tail[k] == NUL;
    assert (name + tail)[|name| + k] == NUL;
  }

  /** Copying n bytes of the name, from memory that goes on after it. */
  lemma PaddedAlike(name: seq<Byte>, tail: seq<Byte>, n: nat)
    requires n <= |name|
    ensures Padded((name + tail)[..TextLength(name + tail)], n) == Padded(name[..TextLength(name)], n)
  {
    CappedLength(name, tail);
  }

  /** The two comparisons of read_dentry_by_name, one over the length of each name,
      are equality of the names. */
  lemma ComparedBothWays(text: seq<Byte>, name: seq<Byte>)
    requires NUL in text && TextLength(text) <= |name|
    ensures TextLength(text) < |text|
    ensures AgreeUpTo(text, name, TextLength(text)) && AgreeUpTo(text, name, TextLength(name))
      <==> text[..TextLength(text)] == name[..TextLength(name)]
  {
    var m, e := TextLength(text), TextLength(name);
    if e > m {
      assert text[..m + 1][m] == text[m] == NUL && name[..m + 1][m] == name[m] != NUL;
    } else if e < m {
      assert text[..m][e] == text[e] != NUL && name[..m][e] == name[e] == NUL;
    }
  }

  function Name(d: Dentry): seq<Byte> {
    d.name[..TextLength(d.name)]
  }

  /** d is the first entry of the directory with this name and an inode that
      passes the check of read_dentry_by_name. */
  ghost predicate Finds(img: Image, fname: seq<Byte>, d: int) {
    && 0 <= d < |img.dir| && Named(img, fname, d)
    && forall e | 0 <= e < d :: !Named(img, fname, e)
  }

  ghost predicate Named(img: Image, fname: seq<Byte>, d: int)
    requires 0 <= d < |img.dir|
  {
    Name(img.dir[d]) == fname && img.dir[d].inode < |img.inodes|
  }

  /** What dir_read hands out can be opened: read to a NUL, the 32 bytes give back
      the entry's name, and an entry of that name is found no later than it. */
  lemma ListedNamesAreFound(img: Image, d: int)
    requires WellFormed(img) && 0 <= d < |img.dir| && img.dir[d].inode < |img.inodes|
    ensures var text := Padded(Name(img.dir[d]), FILENAME_LEN) + [NUL];
            text[..TextLength(text)] == Name(img.dir[d])
    ensures exists e :: 0 <= e <= d && Finds(img, Name(img.dir[d]), e)
  {
    var name := Name(img.dir[d]);
    TextLengthIs(Padded(name, FILENAME_LEN) + [NUL], |name|);
    var e := FirstNamed(img, name, d);
  }

  lemma {:induction false} FirstNamed(img: Image, fname: seq<Byte>, d: int) returns (e: int)
    requires 0 <= d < |img.dir| && Named(img, fname, d)
    ensures 0 <= e <= d && Finds(img, fname, e)
  {
    if k :| 0 <= k < d && Named(img, fname, k) {
      e := FirstNamed(img, fname, k);
    } else {
      e := d;
    }
  }
}

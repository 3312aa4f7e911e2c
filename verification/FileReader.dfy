// The readers of mp3/student-distrib: read_data and file_read (file_sys.c), the name
// look-up, and the program loader (system.c), over the descriptors of one process.
module FileReader {
  import opened Bytes
  import opened CStrings
  import opened FileImage
  import opened KernelLimits
  import opened Limits

  const FD_ARRAY_SIZE := 8
  const RTC_TYPE := 0
  const DIR_TYPE := 1
  const FILE_TYPE := 2
  const PROG_OFFSET := 0x48000
  const PROG_EIP_OFF := 24
  const EXEC_MAGIC_LEN := 4
  const EXEC_MAGIC_STR := 0x464C457F

  /** The copying loop of read_data, from data block to data block. */
  method CopyBlocks(node: Inode, data: seq<Byte>, offset: nat, buf: array<Byte>, at: nat, length: nat,
                    ghost content: seq<Byte>, ghost count: nat) returns (n: int)
    requires WellFormedInode(node, |data|) && content == Content(node, data)
    requires offset < node.length == |content| && at + count <= buf.Length
    requires count <= length && offset + count <= |content| && (count == length || offset + count == |content|)
    modifies buf
    ensures n == count && buf[..] == Laid(old(buf[..]), at, content, offset, count)
  {
    hide Laid, Content, WellFormedInode, Locates, BlockStart;
    ghost var was := buf[..];
    LaidNone(was, at, content, offset);
    FirstByte(node, |data|, offset);
    var dnodeNum := offset / BLOCK_SIZE;
    var posInDnode := offset % BLOCK_SIZE;
    var dnode := BlockStart(node, dnodeNum);
    n := 0;
    while n < length && offset + n < node.length
      invariant 0 <= n <= count && Locates(dnodeNum, posInDnode, offset + n)
      invariant 0 <= dnodeNum < |node.blocks| && dnode == BlockStart(node, dnodeNum)
      invariant buf[..] == Laid(was, at, content, offset, n)
      decreases count - n
    {
      if posInDnode >= BLOCK_SIZE {
        NextBlock(node, |data|, dnodeNum, posInDnode, offset + n);
        dnodeNum := dnodeNum + 1;
        dnode := BlockStart(node, dnodeNum);
        posInDnode := 0;
      }
      NextByte(node, data, content, dnodeNum, posInDnode, offset + n);
      LaidNext(was, at, content, offset, n);
      var v := data[dnode + posInDnode];
      assert buf[..][at + n := v] == Laid(was, at, content, offset, n + 1);
      buf[at + n] := v;
      n := n + 1;
      posInDnode := posInDnode + 1;
    }
  }

  method ReadData(img: Image, inodeIdx: nat, offset: nat, buf: array<Byte>, at: nat, length: nat) returns (n: int)
    requires WellFormed(img) && at + |Served(img, inodeIdx, offset, length)| <= buf.Length
    modifies buf
    ensures n == if length > 0 && inodeIdx >= |img.inodes| then FAILURE else |Served(img, inodeIdx, offset, length)|
    ensures buf[..] == Stored(old(buf[..]), at, Served(img, inodeIdx, offset, length))
  {
    StoredNone(buf[..], at);
    if length == 0 {
      return 0;
    }
    if inodeIdx >= |img.inodes| {
      return FAILURE;
    }
    if offset >= img.inodes[inodeIdx].length {
      return 0;
    }
    var node := img.inodes[inodeIdx];
    ghost var count := LaidAll(node, img.data, buf[..], at, offset, length);
    n := CopyBlocks(node, img.data, offset, buf, at, length, Content(node, img.data), count);
  }

  // ----- names -----

  /** The first entry of that name, by its index; FAILURE when there is none. */
  method ReadDentryByName(img: Image, fname: seq<Byte>) returns (d: int)
    requires WellFormed(img) && NUL in fname
    ensures TextLength(fname) < |fname|
    ensures d != FAILURE ==> Finds(img, fname[..TextLength(fname)], d)
    ensures d == FAILURE ==> forall e | 0 <= e < |img.dir| :: !Named(img, fname[..TextLength(fname)], e)
  {
    var nameLen := Strlen(fname);
    if nameLen > FILENAME_LEN {
      return FAILURE;
    }
    d := 0;
    while d < |img.dir|
      invariant 0 <= d <= |img.dir|
      invariant forall e | 0 <= e < d :: !Named(img, fname[..nameLen], e)
    {
      var entry := img.dir[d];
      if entry.inode < |img.inodes| {
        var entryLength := Strlen(entry.name + entry.tail);
        entryLength := if entryLength > FILENAME_LEN then FILENAME_LEN else entryLength;
        CappedLength(entry.name, entry.tail);
        ComparedBothWays(fname, entry.name);
        TextsAreComparable(fname, entry.name, nameLen);
        TextsAreComparable(fname, entry.name, entryLength);
        var first := Strncmp(fname, entry.name, nameLen);
        var second := Strncmp(fname, entry.name, entryLength);
        if first == 0 && second == 0 {
          return;
        }
      }
      d := d + 1;
    }
    d := FAILURE;
  }

  // ----- descriptors and the loader -----

  datatype OpenFile = OpenFile(inUse: bool, inode: nat, position: nat)

  /** An inode number as the uint32 it is kept as. */
  function AsUint32(x: int): nat {
    x % 0x1_0000_0000
  }

  function AsInt32(x: nat): int {
    if x < 0x8000_0000 then x else x - 0x1_0000_0000
  }

  /** Four bytes in memory order, low byte first. */
  function Word(b: seq<Byte>): nat
    requires |b| == 4
  {
    b[0] as int + 0x100 * b[1] as int + 0x1_0000 * b[2] as int + 0x100_0000 * b[3] as int
  }

  /** An int kept in 32 bits. */
  predicate IsInt32(x: int) {
    -0x8000_0000 <= x < 0x8000_0000
  }

  /** The bytes of a word, lowest first. */
  function WordBytes(v: nat): (b: seq<Byte>)
    requires v < 0x1_0000_0000
    ensures |b| == 4
  {
    [(v % 0x100) as Byte, (v / 0x100 % 0x100) as Byte, (v / 0x1_0000 % 0x100) as Byte, (v / 0x100_0000) as Byte]
  }

  lemma WordReadsBack(v: nat)
    requires v < 0x1_0000_0000
    ensures Word(WordBytes(v)) == v
  {
    var a := v / 0x100;
    var b := a / 0x100;
    assert v / 0x1_0000 == b && v / 0x100_0000 == b / 0x100;
  }

  lemma BytesReadBack(b: seq<Byte>)
    requires |b| == 4
    ensures Word(b) < 0x1_0000_0000 && WordBytes(Word(b)) == b
  {
    var v := Word(b);
    LowestByte(v, b[0] as int, b[1] as int + 0x100 * b[2] as int + 0x1_0000 * b[3] as int);
    LowestByte(v / 0x100, b[1] as int, b[2] as int + 0x100 * b[3] as int);
    LowestByte(v / 0x1_0000, b[2] as int, b[3] as int);
    assert v / 0x1_0000 == v / 0x100 / 0x100 && v / 0x100_0000 == v / 0x1_0000 / 0x100;
  }

  lemma LowestByte(v: nat, low: nat, rest: nat)
    requires low < 0x100 && v == low + 0x100 * rest
    ensures v % 0x100 == low && v / 0x100 == rest
  {
  }

  /** The first four bytes of an ELF file. */
  const ELF_MAGIC: seq<Byte> := [0x7F, 0x45, 0x4C, 0x46]

  /** The word that __load_program compares with is these bytes, lowest first. */
  lemma MagicIsElf(b: seq<Byte>)
    requires |b| == EXEC_MAGIC_LEN
    ensures Word(b) == EXEC_MAGIC_STR <==> b == ELF_MAGIC
  {
    BytesReadBack(b);
    assert WordBytes(EXEC_MAGIC_STR) == ELF_MAGIC;
    WordReadsBack(EXEC_MAGIC_STR);
  }

  /** The entry point is the int whose four bytes are these. */
  lemma EntryPoint(b: seq<Byte>)
    requires |b| == 4
    ensures IsInt32(AsInt32(Word(b))) && WordBytes(AsUint32(AsInt32(Word(b)))) == b
  {
    hide WordBytes, Word;
    BytesReadBack(b);
  }

  /** The file is an executable. */
  predicate Executable(content: seq<Byte>) {
    ELF_MAGIC <= content
  }

  lemma FirstFour(content: seq<Byte>, front: seq<Byte>)
    requires front == content[..Min(EXEC_MAGIC_LEN, |content|)]
    ensures Executable(content) <==> |front| == EXEC_MAGIC_LEN && Word(front) == EXEC_MAGIC_STR
  {
    hide Word;
    if |front| == EXEC_MAGIC_LEN {
      MagicIsElf(front);
      assert ELF_MAGIC <= content <==> content[..EXEC_MAGIC_LEN] == ELF_MAGIC;
    }
  }

  /** There is such an inode, and its file is an executable. */
  ghost predicate IsProgram(img: Image, inode: nat)
    requires WellFormed(img)
  {
    inode < |img.inodes| && Executable(Content(img.inodes[inode], img.data))
  }

  /** What a read of the first four bytes says about that. */
  lemma FirstServed(img: Image, inode: nat)
    requires WellFormed(img)
    ensures var served := Served(img, inode, 0, EXEC_MAGIC_LEN);
      && |served| <= EXEC_MAGIC_LEN
      && (IsProgram(img, inode) <==> |served| == EXEC_MAGIC_LEN && Word(served) == EXEC_MAGIC_STR)
  {
    hide Content, Executable, Word;
    if inode < |img.inodes| {
      var content := Content(img.inodes[inode], img.data);
      FirstFour(content, content[..Min(EXEC_MAGIC_LEN, |content|)]);
    }
  }

  /** The entry can be opened and its file is an executable. */
  ghost predicate Loads(img: Image, d: int)
    requires WellFormed(img) && 0 <= d < |img.dir|
  {
    RTC_TYPE <= img.dir[d].filetype <= FILE_TYPE && IsProgram(img, AsUint32(img.dir[d].inode))
  }

  /** `position` bytes of the file behind descriptor fd have been copied to the page. */
  ghost predicate Copying(img: Image, fd: int, fds: seq<OpenFile>, page: seq<Byte>, before: seq<OpenFile>,
                          was: seq<Byte>, content: seq<Byte>, position: nat) {
    && WellFormed(img) && |before| == FD_ARRAY_SIZE && 0 <= fd < FD_ARRAY_SIZE && before[fd].inUse
    && before[fd].inode < |img.inodes| && content == Content(img.inodes[before[fd].inode], img.data)
    && position <= |content| && PROG_OFFSET + |content| <= |was|
    && page == Laid(was, PROG_OFFSET, content, 0, position)
    && fds == before[fd := before[fd].(position := position)]
  }

  /** `taken` has been read from the file behind descriptor fd and put to the buffer. */
  ghost predicate Pieced(img: Image, fd: int, fds: seq<OpenFile>, buf: seq<Byte>, before: seq<OpenFile>,
                         content: seq<Byte>, position: nat, was: seq<Byte>, at: nat, taken: seq<Byte>) {
    && WellFormed(img) && |before| == FD_ARRAY_SIZE && 0 <= fd < FD_ARRAY_SIZE && before[fd].inUse
    && before[fd].inode < |img.inodes| && content == Content(img.inodes[before[fd].inode], img.data)
    && position == before[fd].position && at + |taken| <= |was| && buf == Stored(was, at, taken)
    && fds == before[fd := before[fd].(position := position + |taken|)]
  }

  /** The file behind descriptor fd has been read up to `position`. */
  ghost predicate ReadUpTo(img: Image, fd: int, fds: seq<OpenFile>, before: seq<OpenFile>, content: seq<Byte>, position: nat) {
    && WellFormed(img) && |before| == FD_ARRAY_SIZE && 0 <= fd < FD_ARRAY_SIZE && before[fd].inUse
    && before[fd].inode < |img.inodes| && content == Content(img.inodes[before[fd].inode], img.data)
    && position <= |content| && fds == before[fd := before[fd].(position := position)]
  }

  lemma CopiedAll(img: Image, fd: int, fds: seq<OpenFile>, page: seq<Byte>, before: seq<OpenFile>,
                  was: seq<Byte>, content: seq<Byte>)
    requires Copying(img, fd, fds, page, before, was, content, |content|)
    ensures |before| == FD_ARRAY_SIZE && 0 <= fd < FD_ARRAY_SIZE && PROG_OFFSET + |content| <= |was|
    ensures page == Stored(was, PROG_OFFSET, content)
    ensures fds == before[fd := before[fd].(position := |content|)]
  {
    LaidWhole(was, PROG_OFFSET, content);
  }

  /** Exactly the first free descriptor has been taken. */
  ghost predicate OneTaken(before: seq<OpenFile>, after: seq<OpenFile>) {
    exists k :: 0 <= k < |before| && !before[k].inUse && (forall j | 0 <= j < k :: before[j].inUse)
                && |after| == |before| && after[k].inUse && after == before[k := after[k]]
  }

  class Process {
    const fds: array<OpenFile>

    constructor ()
      ensures fds.Length == FD_ARRAY_SIZE && fresh(fds)
    {
      fds := new OpenFile[FD_ARRAY_SIZE](i => OpenFile(i < 2, 0, 0));
    }

    method GetNewFd() returns (fd: int)
      requires fds.Length == FD_ARRAY_SIZE
      ensures fd == FAILURE <==> forall k | 0 <= k < FD_ARRAY_SIZE :: fds[k].inUse
      ensures fd != FAILURE ==> 0 <= fd < FD_ARRAY_SIZE && !fds[fd].inUse && forall k | 0 <= k < fd :: fds[k].inUse
    {
      fd := 0;
      while fd < FD_ARRAY_SIZE
        invariant 0 <= fd <= FD_ARRAY_SIZE && forall k | 0 <= k < fd :: fds[k].inUse
      {
        if !fds[fd].inUse {
          return;
        }
        fd := fd + 1;
      }
      fd := FAILURE;
    }

    /** system_open. A file type that is not known fails only after a descriptor has
        been taken. */
    method Open(img: Image, fname: seq<Byte>) returns (fd: int, ghost d: int)
      requires WellFormed(img) && NUL in fname && fds.Length == FD_ARRAY_SIZE
      modifies fds
      ensures TextLength(fname) < |fname|
      ensures d != FAILURE ==> Finds(img, fname[..TextLength(fname)], d)
      ensures d == FAILURE ==> forall e | 0 <= e < |img.dir| :: !Named(img, fname[..TextLength(fname)], e)
      ensures fd != FAILURE <==> (d != FAILURE && RTC_TYPE <= img.dir[d].filetype <= FILE_TYPE
                                  && exists k :: 0 <= k < FD_ARRAY_SIZE && !old(fds[k].inUse))
      ensures fd != FAILURE ==> 0 <= fd < FD_ARRAY_SIZE && !old(fds[fd].inUse) && forall k | 0 <= k < fd :: old(fds[k].inUse)
      ensures fd != FAILURE ==> fds[..] == old(fds[..])[fd := OpenFile(true, AsUint32(img.dir[d].inode), 0)]
      ensures d == FAILURE || (forall k | 0 <= k < FD_ARRAY_SIZE :: old(fds[k].inUse)) ==> fds[..] == old(fds[..])
      ensures d != FAILURE && (exists k :: 0 <= k < FD_ARRAY_SIZE && !old(fds[k].inUse)) ==> OneTaken(old(fds[..]), fds[..])
    {
      fd := ReadDentryByName(img, fname);
      d := fd;
      if fd == FAILURE {
        return;
      }
      var dentry := img.dir[fd];
      fd := GetNewFd();
      if fd == FAILURE {
        return;
      }
      fds[fd] := OpenFile(true, AsUint32(dentry.inode), 0);
      if dentry.filetype != RTC_TYPE && dentry.filetype != DIR_TYPE && dentry.filetype != FILE_TYPE {
        fd := FAILURE;
      }
    }

    ghost predicate Readable(fd: int)
      reads fds
    {
      0 <= fd < fds.Length && fds[fd].inUse
    }

    /** file_read: the next bytes of the file, and the position behind them. */
    method FileRead(img: Image, fd: int, buf: array<Byte>, at: nat, nbytes: int) returns (n: int)
      requires WellFormed(img) && fds.Length == FD_ARRAY_SIZE && at <= buf.Length
      requires Readable(fd) && nbytes >= 0 ==> at + |Served(img, fds[fd].inode, fds[fd].position, nbytes)| <= buf.Length
      modifies fds, buf
      ensures !(old(Readable(fd)) && nbytes >= 0) ==> n == FAILURE && fds[..] == old(fds[..]) && buf[..] == old(buf[..])
      ensures old(Readable(fd)) && nbytes >= 0 ==>
        var file := old(fds[fd]); var served := Served(img, file.inode, file.position, nbytes);
        && n == (if nbytes > 0 && file.inode >= |img.inodes| then FAILURE else |served|)
        && buf[..] == Stored(old(buf[..]), at, served)
        && fds[..] == old(fds[..])[fd := file.(position := file.position + |served|)]
    {
      if fd < 0 || fd >= FD_ARRAY_SIZE || !fds[fd].inUse || nbytes < 0 {
        return FAILURE;
      }
      n := ReadData(img, fds[fd].inode, fds[fd].position, buf, at, nbytes);
      if n != FAILURE {
        fds[fd] := fds[fd].(position := fds[fd].position + n);
      }
    }

    /** One more piece of a file, behind those taken before. */
    method ReadPiece(img: Image, fd: int, buf: array<Byte>, to: nat, nbytes: nat, ghost before: seq<OpenFile>,
                     ghost content: seq<Byte>, ghost position: nat, ghost was: seq<Byte>, ghost at: nat,
                     ghost taken: seq<Byte>) returns (n: int)
      requires Pieced(img, fd, fds[..], buf[..], before, content, position, was, at, taken) && to == at + |taken|
      requires to + |Chunk(content, position + |taken|, nbytes)| <= buf.Length
      modifies fds, buf
      ensures n == |Chunk(content, position + |taken|, nbytes)|
      ensures Pieced(img, fd, fds[..], buf[..], before, content, position, was, at,
                     taken + Chunk(content, position + |taken|, nbytes))
    {
      hide Stored, Chunk, Content, WellFormed;
      StoredTwice(was, at, taken, Chunk(content, position + |taken|, nbytes));
      n := FileRead(img, fd, buf, to, nbytes);
    }

    /** Reads of the given sizes, one after the other. */
    method ReadPieces(img: Image, fd: int, buf: array<Byte>, at: nat, sizes: seq<nat>, ghost content: seq<Byte>) returns (n: nat)
      requires WellFormed(img) && fds.Length == FD_ARRAY_SIZE && Readable(fd) && fds[fd].inode < |img.inodes|
      requires content == Content(img.inodes[fds[fd].inode], img.data)
      requires at + |InPieces(content, fds[fd].position, sizes)| <= buf.Length
      modifies fds, buf
      ensures n == |InPieces(content, old(fds[fd].position), sizes)|
      ensures buf[..] == Stored(old(buf[..]), at, InPieces(content, old(fds[fd].position), sizes))
      ensures fds[..] == old(fds[..])[fd := old(fds[fd]).(position := old(fds[fd].position) + n)]
    {
      ghost var was, before, position := buf[..], fds[..], fds[fd].position;
      StoredNone(was, at);
      n := LoopPieces(img, fd, buf, at, sizes, before, content, position, was);
    }

    /** After such reads one more, of something, returns 0 exactly when their sizes
        reach the end of the file. */
    method ReadPiecesAndMore(img: Image, fd: int, buf: array<Byte>, sizes: seq<nat>, more: array<Byte>, ghost content: seq<Byte>)
        returns (last: int)
      requires WellFormed(img) && fds.Length == FD_ARRAY_SIZE && Readable(fd) && fds[fd].inode < |img.inodes|
      requires content == Content(img.inodes[fds[fd].inode], img.data) && fds[fd].position <= |content|
      requires |InPieces(content, fds[fd].position, sizes)| <= buf.Length && more.Length > 0
      modifies fds, buf, more
      ensures last == 0 <==> old(fds[fd].position) + Sum(sizes) >= |content|
    {
      hide Content, InPieces, Sum, WellFormed, Stored;
      PiecesReachTheEnd(content, fds[fd].position, sizes, more.Length);
      var n := ReadPieces(img, fd, buf, 0, sizes, content);
      last := FileRead(img, fd, more, 0, more.Length);
    }

    method LoopPieces(img: Image, fd: int, buf: array<Byte>, at: nat, sizes: seq<nat>, ghost before: seq<OpenFile>,
                      ghost content: seq<Byte>, ghost position: nat, ghost was: seq<Byte>) returns (n: nat)
      requires Pieced(img, fd, fds[..], buf[..], before, content, position, was, at, [])
      requires at + |InPieces(content, position, sizes)| <= buf.Length
      modifies fds, buf
      ensures n == |InPieces(content, position, sizes)|
      ensures Pieced(img, fd, fds[..], buf[..], before, content, position, was, at, InPieces(content, position, sizes))
    {
      hide *;
      NoPieces(content, position, sizes);
      n := 0;
      var k := 0;
      while k < |sizes|
        invariant 0 <= k <= |sizes| && n == |InPieces(content, position, sizes[..k])|
        invariant Pieced(img, fd, fds[..], buf[..], before, content, position, was, at, InPieces(content, position, sizes[..k]))
      {
        PiecesNext(content, position, sizes, k);
        ghost var taken := InPieces(content, position, sizes[..k]);
        var r := ReadPiece(img, fd, buf, at + n, sizes[k], before, content, position, was, at, taken);
        n := n + r;
        k := k + 1;
      }
      assert sizes[..k] == sizes;
    }

    /** One turn of the loop of cat: the next bytes, as many as the buffer holds. */
    method ReadChunk(img: Image, fd: int, buf: array<Byte>, ghost content: seq<Byte>, ghost before: seq<OpenFile>,
                     ghost position: nat) returns (cnt: int)
      requires ReadUpTo(img, fd, fds[..], before, content, position) && buf.Length > 0
      modifies fds, buf
      ensures 0 <= cnt <= buf.Length && position + cnt <= |content| && (cnt == 0 <==> position == |content|)
      ensures buf[..cnt] == content[position..position + cnt]
      ensures ReadUpTo(img, fd, fds[..], before, content, position + cnt)
    {
      hide Content, WellFormed, Chunk, Stored;
      ChunkInside(content, position, buf.Length);
      StoredFront(buf[..], Chunk(content, position, buf.Length));
      cnt := FileRead(img, fd, buf, 0, buf.Length);
    }

    /** The loop of cat: reads of one size until one returns 0, which happens right
        after the whole rest of the file. */
    method ReadToEnd(img: Image, fd: int, buf: array<Byte>, ghost content: seq<Byte>) returns (text: seq<Byte>)
      requires WellFormed(img) && fds.Length == FD_ARRAY_SIZE && Readable(fd) && fds[fd].inode < |img.inodes|
      requires content == Content(img.inodes[fds[fd].inode], img.data)
      requires fds[fd].position <= |content| && buf.Length > 0
      modifies fds, buf
      ensures text == content[old(fds[fd].position)..]
      ensures fds[..] == old(fds[..])[fd := old(fds[fd]).(position := |content|)]
    {
      ghost var before, start := fds[..], fds[fd].position;
      assert ReadUpTo(img, fd, fds[..], before, content, start);
      text := LoopChunks(img, fd, buf, content, before, start);
    }

    method LoopChunks(img: Image, fd: int, buf: array<Byte>, ghost content: seq<Byte>, ghost before: seq<OpenFile>,
                      ghost start: nat) returns (text: seq<Byte>)
      requires ReadUpTo(img, fd, fds[..], before, content, start) && start <= |content| && buf.Length > 0
      modifies fds, buf
      ensures text == content[start..] && ReadUpTo(img, fd, fds[..], before, content, |content|)
    {
      hide ReadUpTo;
      text := [];
      var cnt := ReadChunk(img, fd, buf, content, before, start);
      ghost var position := start + cnt;
      while cnt != 0
        invariant 0 <= cnt <= buf.Length && start + cnt <= position <= |content| && (cnt == 0 ==> position == |content|)
        invariant text == content[start..position - cnt] && buf[..cnt] == content[position - cnt..position]
        invariant ReadUpTo(img, fd, fds[..], before, content, position)
        decreases |content| - position + cnt
      {
        if cnt == FAILURE {
          assert false;
        }
        SlicesJoin(content, start, position - cnt, position);
        text := text + buf[..cnt];
        cnt := ReadChunk(img, fd, buf, content, before, position);
        position := position + cnt;
      }
    }

    /** dir_read: the name of the next directory entry, cut or padded to the bytes
        asked for; 0 after the last one. */
    method DirRead(img: Image, fd: int, buf: array<Byte>, at: nat, nbytes: int) returns (n: int)
      requires WellFormed(img) && fds.Length == FD_ARRAY_SIZE && at + Min(nbytes, FILENAME_LEN) <= buf.Length
      modifies fds, buf
      ensures !(0 <= fd < FD_ARRAY_SIZE && nbytes >= 0) ==> n == FAILURE
      ensures 0 <= fd < FD_ARRAY_SIZE && nbytes >= 0 && old(fds[fd].position) >= |img.dir| ==> n == 0
      ensures 0 <= fd < FD_ARRAY_SIZE && nbytes >= 0 && old(fds[fd].position) < |img.dir| ==>
        && n == Min(nbytes, FILENAME_LEN)
        && buf[..] == Stored(old(buf[..]), at, Padded(Name(img.dir[old(fds[fd].position)]), n))
        && fds[..] == old(fds[..])[fd := old(fds[fd]).(position := old(fds[fd].position) + 1)]
      ensures n <= 0 && nbytes != 0 ==> fds[..] == old(fds[..]) && buf[..] == old(buf[..])
    {
      if fd < 0 || fd >= FD_ARRAY_SIZE || nbytes < 0 {
        return FAILURE;
      }
      var numBytes := if nbytes < FILENAME_LEN then nbytes else FILENAME_LEN;
      var dentryNum := fds[fd].position;
      if dentryNum >= |img.dir| {
        return 0;
      }
      var dentry := img.dir[dentryNum];
      WholeName(dentry.name, dentry.tail);
      Strncpy(buf, at, dentry.name + dentry.tail, numBytes);
      PaddedAlike(dentry.name, dentry.tail, numBytes);
      fds[fd] := fds[fd].(position := fds[fd].position + 1);
      n := numBytes;
    }

    method FileClose(fd: int) returns (ok: bool)
      requires fds.Length == FD_ARRAY_SIZE
      modifies fds
      ensures ok == old(Readable(fd))
      ensures fds[..] == if ok then old(fds[..])[fd := old(fds[fd]).(inUse := false)] else old(fds[..])
    {
      if fd < 0 || fd >= FD_ARRAY_SIZE || !fds[fd].inUse {
        return false;
      }
      fds[fd] := fds[fd].(inUse := false);
      ok := true;
    }

    /** One byte of the program, or 0 at the end of the file. */
    method CopyByte(img: Image, fd: int, page: array<Byte>, progAddr: nat, ghost was: seq<Byte>,
                    ghost before: seq<OpenFile>, ghost content: seq<Byte>, ghost position: nat) returns (ret: int)
      requires Copying(img, fd, fds[..], page[..], before, was, content, position)
      requires position < |content| ==> progAddr == PROG_OFFSET + position
      requires progAddr <= page.Length
      modifies fds, page
      ensures 0 <= ret <= 1 && (ret == 0 <==> position == |content|)
      ensures Copying(img, fd, fds[..], page[..], before, was, content, position + ret)
    {
      hide Laid, Stored, Served, Content, WellFormed;
      OneMore(img, before[fd].inode, content, was, PROG_OFFSET, position);
      StoredNone(page[..], progAddr);
      ret := FileRead(img, fd, page, progAddr, 1);
    }

    /** The loop of __load_program: one byte at a time until there is none. */
    method CopyBytes(img: Image, fd: int, page: array<Byte>, ghost was: seq<Byte>, ghost before: seq<OpenFile>,
                     ghost content: seq<Byte>)
      requires Copying(img, fd, fds[..], page[..], before, was, content, 0) && PROG_OFFSET + |content| <= page.Length
      modifies fds, page
      ensures Copying(img, fd, fds[..], page[..], before, was, content, |content|)
    {
      hide Copying;
      ghost var position := 0;
      var progAddr := PROG_OFFSET;
      var ret := CopyByte(img, fd, page, progAddr, was, before, content, position);
      progAddr := progAddr + 1;
      position := position + ret;
      while ret != 0
        invariant 0 <= ret <= 1 && ret <= position <= |content| && (ret == 0 ==> position == |content|)
        invariant progAddr == PROG_OFFSET + position + 1 - ret
        invariant Copying(img, fd, fds[..], page[..], before, was, content, position)
        decreases |content| - position + ret
      {
        if ret == FAILURE {
          assert false;
        }
        ret := CopyByte(img, fd, page, progAddr, was, before, content, position);
        progAddr := progAddr + 1;
        position := position + ret;
      }
    }

    /** The file into the page, and the position at its end. */
    method CopyProgram(img: Image, fd: int, page: array<Byte>, ghost content: seq<Byte>)
      requires WellFormed(img) && fds.Length == FD_ARRAY_SIZE && Readable(fd) && fds[fd].position == 0
      requires fds[fd].inode < |img.inodes| && content == Content(img.inodes[fds[fd].inode], img.data)
      requires PROG_OFFSET + |content| <= page.Length
      modifies fds, page
      ensures page[..] == Stored(old(page[..]), PROG_OFFSET, content)
      ensures fds[..] == old(fds[..])[fd := old(fds[fd]).(position := |content|)]
    {
      ghost var was, before := page[..], fds[..];
      LaidNone(was, PROG_OFFSET, content, 0);
      CopyBytes(img, fd, page, was, before, content);
      CopiedAll(img, fd, fds[..], page[..], before, was, content);
    }

    /** The check of __load_program on the first bytes of the file. */
    method CheckMagic(img: Image, fd: int) returns (elf: bool)
      requires WellFormed(img) && fds.Length == FD_ARRAY_SIZE && Readable(fd) && fds[fd].position == 0
      modifies fds
      ensures 0 <= fd < FD_ARRAY_SIZE && elf == IsProgram(img, old(fds[fd].inode))
      ensures fds[..] == old(fds[..])[fd := old(fds[fd]).(position := fds[fd].position)]
    {
      hide Content, Executable, Word, Stored, Chunk;
      ghost var served := Served(img, fds[fd].inode, 0, EXEC_MAGIC_LEN);
      FirstServed(img, fds[fd].inode);
      var magicNum := new Byte[EXEC_MAGIC_LEN];
      StoredFront(magicNum[..], served);
      var ret := FileRead(img, fd, magicNum, 0, EXEC_MAGIC_LEN);
      assert |served| == EXEC_MAGIC_LEN ==> magicNum[..] == magicNum[..][..|served|] == served;
      elf := !(ret == FAILURE || ret < EXEC_MAGIC_LEN || Word(magicNum[..]) != EXEC_MAGIC_STR);
    }

    /** The rest of __load_program, once the file has been opened. */
    method LoadOpened(img: Image, fd: int, page: array<Byte>) returns (eip: int)
      requires WellFormed(img) && fds.Length == FD_ARRAY_SIZE && Readable(fd) && fds[fd].position == 0
      requires PROG_OFFSET + PROG_EIP_OFF + 4 <= page.Length
      requires IsProgram(img, fds[fd].inode) ==> PROG_OFFSET + img.inodes[fds[fd].inode].length <= page.Length
      modifies fds, page
      ensures 0 <= fd < FD_ARRAY_SIZE && fds[..] == old(fds[..])[fd := fds[fd]]
      ensures fds[fd].inUse == !IsProgram(img, old(fds[fd].inode))
      ensures IsProgram(img, old(fds[fd].inode)) ==>
        && page[..] == Stored(old(page[..]), PROG_OFFSET, Content(img.inodes[old(fds[fd].inode)], img.data))
        && IsInt32(eip) && page[PROG_OFFSET + PROG_EIP_OFF..PROG_OFFSET + PROG_EIP_OFF + 4] == WordBytes(AsUint32(eip))
      ensures !IsProgram(img, old(fds[fd].inode)) ==> page[..] == old(page[..]) && eip == FAILURE
    {
      hide Content, Executable, Word, WordBytes, Served;
      var elf := CheckMagic(img, fd);
      if !elf {
        return FAILURE;
      }
      ghost var content := Content(img.inodes[fds[fd].inode], img.data);
      fds[fd] := fds[fd].(position := 0);
      CopyProgram(img, fd, page, content);
      var ok := FileClose(fd);
      EntryPoint(page[PROG_OFFSET + PROG_EIP_OFF..PROG_OFFSET + PROG_EIP_OFF + 4]);
      eip := AsInt32(Word(page[PROG_OFFSET + PROG_EIP_OFF..PROG_OFFSET + PROG_EIP_OFF + 4]));
    }

    /** __load_program: the whole file in the page and its entry point, or FAILURE
        with the page as it was and, if the name was found, a descriptor left open. */
    method LoadProgram(img: Image, fname: seq<Byte>, page: array<Byte>) returns (eip: int, ghost d: int)
      requires WellFormed(img) && NUL in fname && fds.Length == FD_ARRAY_SIZE
      requires PROG_OFFSET + PROG_EIP_OFF + 4 <= page.Length
      requires forall d | Finds(img, fname[..TextLength(fname)], d) && Loads(img, d) ::
        PROG_OFFSET + img.inodes[AsUint32(img.dir[d].inode)].length <= page.Length
      modifies fds, page
      ensures TextLength(fname) < |fname|
      ensures d != FAILURE ==> Finds(img, fname[..TextLength(fname)], d)
      ensures d == FAILURE ==> forall e | 0 <= e < |img.dir| :: !Named(img, fname[..TextLength(fname)], e)
      ensures var up := d != FAILURE && Loads(img, d) && exists k :: 0 <= k < FD_ARRAY_SIZE && !old(fds[k].inUse);
        if up then
          && page[..] == Stored(old(page[..]), PROG_OFFSET, Content(img.inodes[AsUint32(img.dir[d].inode)], img.data))
          && IsInt32(eip) && page[PROG_OFFSET + PROG_EIP_OFF..PROG_OFFSET + PROG_EIP_OFF + 4] == WordBytes(AsUint32(eip))
          && forall k | 0 <= k < FD_ARRAY_SIZE :: fds[k].inUse == old(fds[k].inUse)
        else
          page[..] == old(page[..]) && eip == FAILURE
      ensures d == FAILURE || (forall k | 0 <= k < FD_ARRAY_SIZE :: old(fds[k].inUse)) ==> fds[..] == old(fds[..])
      ensures d != FAILURE && !Loads(img, d) && (exists k :: 0 <= k < FD_ARRAY_SIZE && !old(fds[k].inUse)) ==>
        OneTaken(old(fds[..]), fds[..])
    {
      var fd;
      fd, d := Open(img, fname);
      if fd == FAILURE {
        return FAILURE, d;
      }
      eip := LoadOpened(img, fd, page);
    }
  }
}

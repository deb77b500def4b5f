/** The read-only file system image: blocks, inodes, directory entries (files.c, files.h). */
module FileSystem {
  import opened Machine
  import opened CString

  const BLOCK_SIZE := 4096
  const LIST_SIZE := 1023
  const NAME_SIZE := 32
  const MAX_ENTRIES := 63

  datatype Inode = Inode(length: uint32, blockList: seq<uint32>)

  datatype Dentry = Dentry(fname: seq<byte>, fileType: uint32, inodeIndex: uint32)

  datatype Image = Image(dentries: seq<Dentry>, inodes: seq<Inode>, blocks: seq<seq<byte>>) {

    ghost predicate Valid() {
      && |dentries| <= MAX_ENTRIES
      && |inodes| < 0x8000_0000
      && (forall d <- dentries :: |d.fname| == NAME_SIZE && d.fileType <= 2 && d.inodeIndex < |inodes|)
      && (forall b <- blocks :: |b| == BLOCK_SIZE)
      && (forall n <- inodes :: ValidInode(n))
    }

    /** The length fits the block list, and the list names a data block for every part of it. */
    ghost predicate ValidInode(n: Inode) {
      && |n.blockList| == LIST_SIZE
      && n.length <= LIST_SIZE * BLOCK_SIZE
      && (forall k :: 0 <= k < LIST_SIZE && k * BLOCK_SIZE < n.length ==> n.blockList[k] < |blocks|)
    }

    /** Byte `i` of the file, found through the block list. */
    ghost function ByteAt(inode: nat, i: nat): byte
      requires Valid() && inode < |inodes| && i < inodes[inode].length
    {
      assert ValidInode(inodes[inode]);
      blocks[inodes[inode].blockList[i / BLOCK_SIZE]][i % BLOCK_SIZE]
    }

    /** The first `n` bytes of the file. */
    ghost function Prefix(inode: nat, n: nat): (s: seq<byte>)
      requires Valid() && inode < |inodes| && n <= inodes[inode].length
      ensures |s| == n
    {
      if n == 0 then [] else Prefix(inode, n - 1) + [ByteAt(inode, n - 1)]
    }

    /** The file as one flat sequence of bytes. */
    ghost function Content(inode: nat): (s: seq<byte>)
      requires Valid() && inode < |inodes|
      ensures |s| == inodes[inode].length
    {
      Prefix(inode, inodes[inode].length)
    }

    lemma {:induction false} PrefixAt(inode: nat, n: nat, i: nat)
      requires Valid() && inode < |inodes| && i < n <= inodes[inode].length
      ensures Prefix(inode, n)[i] == ByteAt(inode, i)
    {
      if i < n - 1 {
        PrefixAt(inode, n - 1, i);
      }
    }
  }

  /** The file is its listed blocks one behind the other, cut at its length. */
  lemma ContentIsBlocks(img: Image, inode: nat, k: nat)
    requires img.Valid() && inode < |img.inodes| && k * 4096 < img.inodes[inode].length
    ensures |img.Content(inode)| == img.inodes[inode].length
    ensures var n := Min(4096, img.inodes[inode].length - k * 4096);
            && k < 1023 && |img.inodes[inode].blockList| == 1023
            && img.inodes[inode].blockList[k] < |img.blocks|
            && n <= |img.blocks[img.inodes[inode].blockList[k]]|
            && img.Content(inode)[k * 4096..k * 4096 + n]
               == img.blocks[img.inodes[inode].blockList[k]][..n]
  {
    var node := img.inodes[inode];
    assert node in img.inodes && img.ValidInode(node);
    var n, start := Min(BLOCK_SIZE, node.length - k * BLOCK_SIZE), k * BLOCK_SIZE;
    var block := img.blocks[node.blockList[k]];
    assert block in img.blocks;
    forall i | 0 <= i < n
      ensures img.Content(inode)[start + i] == block[i]
    {
      Division(k, i, BLOCK_SIZE);
      img.PrefixAt(inode, node.length, start + i);
    }
  }

  /** What a read of `n` bytes at offset `off` of a flat file returns. */
  function Slice(content: seq<byte>, off: nat, n: nat): seq<byte>
    requires off <= |content|
  {
    content[off..Min(off + n, |content|)]
  }

  /** The range check of read_data. */
  predicate Accepts(img: Image, inode: uint32) {
    !(inode > |img.inodes|)
  }

  /** The check accepts exactly the inode numbers in range if and only if the number is not the
      inode count itself: that one it accepts although it is out of range. */
  lemma RangeCheckIff(img: Image, inode: uint32)
    ensures (Accepts(img, inode) <==> inode < |img.inodes|) <==> inode != |img.inodes|
    ensures inode == |img.inodes| ==> Accepts(img, inode)
  {
  }

  /** The little-endian word at an index of a block. */
  function Word(b: seq<byte>, at: nat): uint32
    requires at + 4 <= |b|
  {
    b[at] as int + 0x100 * b[at + 1] as int + 0x1_0000 * b[at + 2] as int + 0x100_0000 * b[at + 3] as int
  }

  /** A block read as an inode. */
  function AsInode(b: seq<byte>): Inode
    requires |b| == BLOCK_SIZE
  {
    Inode(Word(b, 0), seq(LIST_SIZE, k requires 0 <= k < LIST_SIZE => Word(b, 4 + 4 * k)))
  }

  /** Words are stored lowest byte first. */
  lemma WordBytes(b: seq<byte>, at: nat)
    requires at + 4 <= |b|
    ensures var w := Word(b, at);
            && w % 0x100 == b[at] as int && w / 0x100 % 0x100 == b[at + 1] as int
            && w / 0x1_0000 % 0x100 == b[at + 2] as int && w / 0x100_0000 == b[at + 3] as int
  {
    FourBytes(b[at] as int, b[at + 1] as int, b[at + 2] as int, b[at + 3] as int);
  }

  lemma FourBytes(a: nat, b: nat, c: nat, d: nat)
    requires a < 0x100 && b < 0x100 && c < 0x100
    ensures var w := a + 0x100 * b + 0x1_0000 * c + 0x100_0000 * d;
            w % 0x100 == a && w / 0x100 % 0x100 == b && w / 0x1_0000 % 0x100 == c && w / 0x100_0000 == d
  {
    Division(b + 0x100 * c + 0x1_0000 * d, a, 0x100);
    Division(c + 0x100 * d, b, 0x100);
    Division(c + 0x100 * d, a + 0x100 * b, 0x1_0000);
    Division(d, c, 0x100);
    Division(d, a + 0x100 * b + 0x1_0000 * c, 0x100_0000);
  }

  /** Every byte of an inode's block is in its fields: the length first, then the block list. */
  lemma InodeBytes(b: seq<byte>, k: nat)
    requires |b| == BLOCK_SIZE && k < LIST_SIZE
    ensures var n := AsInode(b);
            && n.length % 0x100 == b[0] as int && n.length / 0x100_0000 == b[3] as int
            && |n.blockList| == 1023 && n.blockList[k] % 0x100 == b[4 * k + 4] as int
            && n.blockList[k] / 0x100 % 0x100 == b[4 * k + 5] as int
            && n.blockList[k] / 0x1_0000 % 0x100 == b[4 * k + 6] as int
            && n.blockList[k] / 0x100_0000 == b[4 * k + 7] as int
  {
    WordBytes(b, 0);
    WordBytes(b, 4 + 4 * k);
  }

  /** The image as read_data sees it: behind the last inode it takes the first data block for one. */
  function Seen(img: Image, inode: uint32): (r: Image)
    requires img.Valid() && inode <= |img.inodes| && (inode == |img.inodes| ==> img.blocks != [])
    ensures inode < |r.inodes| && (inode < |img.inodes| ==> r == img)
  {
    if inode < |img.inodes| then img
    else
      assert img.blocks[0] in img.blocks;
      img.(inodes := img.inodes + [AsInode(img.blocks[0])])
  }

  /** Copies up to `length` bytes of the file from `offset` on, block by block, into `buf`
      from index `base` on (read_data).  The inode check admits one number too many: for the inode
      count itself the bytes come from the first data block read as an inode. */
  method ReadData(img: Image, inode: uint32, offset: uint32, buf: array<byte>, base: nat, length: uint32)
      returns (n: int)
    requires img.Valid()
    requires Accepts(img, inode) ==>
               && (inode == |img.inodes| ==> img.blocks != [] && Seen(img, inode).Valid())
               && offset <= Seen(img, inode).inodes[inode].length
               && base + |Slice(Seen(img, inode).Content(inode), offset, length)| <= buf.Length
    modifies buf
    ensures !Accepts(img, inode) ==> n == -1 && buf[..] == old(buf[..])
    ensures Accepts(img, inode) ==>
              var s := Slice(Seen(img, inode).Content(inode), offset, length);
              && n == |s|
              && (forall k :: base <= k < base + n ==> buf[k] == s[k - base])
              && (forall k :: 0 <= k < base || base + n <= k < buf.Length ==> buf[k] == old(buf[k]))
  {
    if inode > |img.inodes| {
      return -1;
    }
    n := ReadNode(Seen(img, inode), inode, offset, buf, base, length);
  }

  /** read_data behind its check. */
  method ReadNode(img: Image, inode: uint32, offset: uint32, buf: array<byte>, base: nat, length: uint32)
      returns (n: nat)
    requires img.Valid() && inode < |img.inodes| && offset <= img.inodes[inode].length
    requires base + |Slice(img.Content(inode), offset, length)| <= buf.Length
    modifies buf
    ensures var s := Slice(img.Content(inode), offset, length);
            && n == |s|
            && (forall k :: base <= k < base + n ==> buf[k] == s[k - base])
            && (forall k :: 0 <= k < base || base + n <= k < buf.Length ==> buf[k] == old(buf[k]))
  {
    assert img.ValidInode(img.inodes[inode]);
    ghost var content := img.Content(inode);
    ghost var total := |Slice(content, offset, length)|;
    var numBytes: uint32 := length;
    var remain: uint32 := img.inodes[inode].length - offset;
    var blockIndex: uint32 := offset / BLOCK_SIZE;
    var dataBlock: uint32;
    if blockIndex < LIST_SIZE {
      dataBlock := img.inodes[inode].blockList[blockIndex];
    } else {
      // the word behind the list: read at the end of a file that fills it, and never used
      dataBlock := *;
    }
    var offsetInBlock: uint32 := offset % BLOCK_SIZE;
    var bytesIndex: uint32 := 0;
    while numBytes > 0 && remain > 0
      invariant bytesIndex + numBytes == length && offset + bytesIndex + remain == |content|
      invariant bytesIndex <= total
      invariant numBytes > 0 && remain > 0 ==>
                  && offset + bytesIndex == blockIndex * BLOCK_SIZE + offsetInBlock
                  && offsetInBlock < BLOCK_SIZE
                  && blockIndex < LIST_SIZE && dataBlock == img.inodes[inode].blockList[blockIndex]
      invariant forall k :: base <= k < base + bytesIndex ==> buf[k] == content[offset + (k - base)]
      invariant forall k :: 0 <= k < base || base + bytesIndex <= k < buf.Length ==> buf[k] == old(buf[k])
      decreases remain
    {
      var room := BLOCK_SIZE - offsetInBlock;
      var chunk: uint32;
      if numBytes < room && numBytes <= remain {
        chunk := numBytes;
      } else if numBytes > remain && remain < room {
        chunk := remain;
      } else {
        chunk := room;
      }
      assert chunk == Min(numBytes, Min(remain, room));
      CopyFromBlock(img, inode, blockIndex, dataBlock, offsetInBlock, chunk, buf, base + bytesIndex);
      offsetInBlock := offsetInBlock + chunk;
      bytesIndex := bytesIndex + chunk;
      numBytes := numBytes - chunk;
      remain := remain - chunk;
      if numBytes > 0 && remain > 0 {
        blockIndex := blockIndex + 1;
        dataBlock := img.inodes[inode].blockList[blockIndex];
        offsetInBlock := 0;
      }
    }
    return bytesIndex;
  }

  /** The inner copy loop of read_data: `chunk` bytes from one block, all of them file bytes. */
  method CopyFromBlock(img: Image, ghost inode: uint32, ghost blockIndex: uint32, dataBlock: uint32,
                       offsetInBlock: uint32, chunk: uint32, buf: array<byte>, at: nat)
    requires img.Valid() && inode < |img.inodes|
    requires img.ValidInode(img.inodes[inode])
    requires blockIndex < LIST_SIZE && dataBlock == img.inodes[inode].blockList[blockIndex]
    requires offsetInBlock + chunk <= BLOCK_SIZE && at + chunk <= buf.Length
    requires chunk > 0 && blockIndex * BLOCK_SIZE + offsetInBlock + chunk <= img.inodes[inode].length
    modifies buf
    ensures var start := blockIndex * BLOCK_SIZE + offsetInBlock;
            forall k :: at <= k < at + chunk ==> buf[k] == img.Content(inode)[start + (k - at)]
    ensures forall k :: 0 <= k < at || at + chunk <= k < buf.Length ==> buf[k] == old(buf[k])
  {
    assert img.ValidInode(img.inodes[inode]);
    var block := img.blocks[dataBlock];
    var loopIndex := 0;
    while loopIndex < chunk
      invariant 0 <= loopIndex <= chunk
      invariant forall k :: at <= k < at + loopIndex ==> buf[k] == block[offsetInBlock + (k - at)]
      invariant forall k :: 0 <= k < at || at + loopIndex <= k < buf.Length ==> buf[k] == old(buf[k])
    {
      buf[at + loopIndex] := block[offsetInBlock + loopIndex];
      loopIndex := loopIndex + 1;
    }
    forall k | at <= k < at + chunk
      ensures buf[k] == img.Content(inode)[blockIndex * BLOCK_SIZE + offsetInBlock + (k - at)]
    {
      var i := blockIndex * BLOCK_SIZE + offsetInBlock + (k - at);
      assert i / BLOCK_SIZE == blockIndex && i % BLOCK_SIZE == offsetInBlock + (k - at);
      img.PrefixAt(inode, img.inodes[inode].length, i);
    }
  }

  /** The slices that successive reads of the given sizes return, from position `pos` on. */
  ghost function ReadRun(content: seq<byte>, pos: nat, sizes: seq<nat>): seq<seq<byte>>
    requires pos <= |content|
    decreases |sizes|
  {
    if sizes == [] then [] else
    var first := Slice(content, pos, sizes[0]);
    [first] + ReadRun(content, pos + |first|, sizes[1..])
  }

  ghost function Sum(sizes: seq<nat>): nat {
    if sizes == [] then 0 else sizes[0] + Sum(sizes[1..])
  }

  ghost function Concat(parts: seq<seq<byte>>): seq<byte> {
    if parts == [] then [] else parts[0] + Concat(parts[1..])
  }

  /** Any run of reads returns consecutive slices: put together they are one read of the total. */
  lemma {:induction false} RunIsOneRead(content: seq<byte>, pos: nat, sizes: seq<nat>)
    requires pos <= |content|
    ensures Concat(ReadRun(content, pos, sizes)) == Slice(content, pos, Sum(sizes))
    decreases |sizes|
  {
    if sizes != [] {
      var first := Slice(content, pos, sizes[0]);
      SliceParts(content, pos, sizes[0], Sum(sizes[1..]));
      RunUnfolds(content, pos, sizes);
      hide ReadRun, Concat, Sum, Slice;
      RunIsOneRead(content, pos + |first|, sizes[1..]);
    }
  }

  lemma RunUnfolds(content: seq<byte>, pos: nat, sizes: seq<nat>)
    requires pos <= |content| && sizes != []
    ensures var first := Slice(content, pos, sizes[0]);
            && Concat(ReadRun(content, pos, sizes)) == first + Concat(ReadRun(content, pos + |first|, sizes[1..]))
            && Sum(sizes) == sizes[0] + Sum(sizes[1..])
  {
    var first := Slice(content, pos, sizes[0]);
    var others := ReadRun(content, pos + |first|, sizes[1..]);
    assert ReadRun(content, pos, sizes) == [first] + others && ([first] + others)[1..] == others;
  }

  /** Reading a and then b bytes is reading a + b bytes. */
  lemma SliceParts(content: seq<byte>, pos: nat, a: nat, b: nat)
    requires pos <= |content|
    ensures var first := Slice(content, pos, a);
            pos + |first| <= |content| && Slice(content, pos, a + b) == first + Slice(content, pos + |first|, b)
  {
  }

  // ---------------------------------------------------------------- directory lookup

  /** A directory entry's name: up to 32 bytes, not necessarily terminated. */
  function Name(d: Dentry): seq<byte> {
    Text(d.fname)
  }

  /** The bytes of the entry from its name on: the file type follows the name in memory. */
  function NameMemory(d: Dentry): seq<byte>
    requires d.fileType <= 2
  {
    d.fname + [d.fileType as byte, NUL, NUL, NUL]
  }

  /** The first entry with the given name. */
  function Find(entries: seq<Dentry>, name: seq<byte>): Option<Dentry> {
    if entries == [] then None
    else if Name(entries[0]) == name then Some(entries[0])
    else Find(entries[1..], name)
  }

  /** `Find` fails exactly when no entry has the name, and otherwise returns the first that has it. */
  lemma {:induction false} FindIsFirst(entries: seq<Dentry>, name: seq<byte>)
    ensures Find(entries, name) == None <==> forall d <- entries :: Name(d) != name
    ensures forall i :: 0 <= i < |entries| && Name(entries[i]) == name
                        && (forall j :: 0 <= j < i ==> Name(entries[j]) != name)
                        ==> Find(entries, name) == Some(entries[i])
  {
    if entries != [] {
      FindIsFirst(entries[1..], name);
      assert entries == [entries[0]] + entries[1..];
      forall i | 0 < i < |entries| && Name(entries[i]) == name
                 && (forall j :: 0 <= j < i ==> Name(entries[j]) != name)
        ensures Find(entries, name) == Some(entries[i])
      {
        assert entries[1..][i - 1] == entries[i];
        assert forall j :: 0 <= j < i - 1 ==> Name(entries[1..][j]) == Name(entries[j + 1]);
      }
    }
  }

  /** Comparing up to a length no smaller than either name decides equality of the names. */
  lemma ComparisonIsEquality(fname: seq<byte>, d: Dentry, n: nat)
    requires |d.fname| == NAME_SIZE && d.fileType <= 2
    requires |Text(fname)| <= n && |Name(d)| <= n <= NAME_SIZE
    ensures Take(Text(fname), n) == Take(Text(NameMemory(d)), n) <==> Text(fname) == Name(d)
  {
    var mem := NameMemory(d);
    var k := |Name(d)|;
    assert mem[..k] == Name(d);
    if k < NAME_SIZE {
      TextUnique(mem, k);
    } else {
      AtLeast(mem, NAME_SIZE);
    }
    assert Take(Text(mem), n) == Name(d);
  }

  /** strlen of an entry's name, which may run past the 32 name bytes, cut back to 32. */
  lemma EntryLength(d: Dentry)
    requires |d.fname| == NAME_SIZE && d.fileType <= 2
    ensures NUL in NameMemory(d) && Min(|Text(NameMemory(d))|, NAME_SIZE) == |Name(d)|
  {
    var mem := NameMemory(d);
    var k := |Name(d)|;
    assert mem[NAME_SIZE + 1] == NUL;
    assert mem[..k] == Name(d);
    if k < NAME_SIZE {
      TextUnique(mem, k);
    } else {
      AtLeast(mem, NAME_SIZE);
    }
  }

  /** Directory search (read_dentry_by_name).  The comparison length `count1` never shrinks from
      one entry to the next, yet the search is exact. */
  method ReadDentryByName(img: Image, fname: seq<byte>) returns (r: Option<Dentry>)
    requires img.Valid() && NUL in fname
    ensures r == Find(img.dentries, Text(fname))
  {
    var count1 := Strlen(fname);
    if count1 > 32 {
      NoLongName(img.dentries, Text(fname));
      return None;
    }
    var index := 0;
    while index < |img.dentries|
      invariant 0 <= index <= |img.dentries| && |Text(fname)| <= count1 <= 32
      invariant Find(img.dentries, Text(fname)) == Find(img.dentries[index..], Text(fname))
    {
      var d := img.dentries[index];
      assert d in img.dentries;
      EntryLength(d);
      var count2 := Strlen(NameMemory(d));
      if count2 > 32 {
        count2 := 32;
      }
      if count1 < count2 {
        count1 := count2;
      }
      ComparisonIsEquality(fname, d, count1);
      var diff := StrncmpKernel(fname, NameMemory(d), count1);
      if diff == 0 {
        return Some(d);
      }
      assert img.dentries[index..][1..] == img.dentries[index + 1..];
      index := index + 1;
    }
    return None;
  }

  lemma {:induction false} NoLongName(entries: seq<Dentry>, name: seq<byte>)
    requires |name| > NAME_SIZE && forall d <- entries :: |d.fname| == NAME_SIZE
    ensures Find(entries, name) == None
  {
    if entries != [] {
      NoLongName(entries[1..], name);
    }
  }
}

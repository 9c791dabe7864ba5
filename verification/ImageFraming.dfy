/**
 Raw configuration images (`boot.c`): a loader copies the file into a buffer of exactly
 computed size, in blocks of 4096 bytes with a four-byte header each, behind a fixed
 preamble and in front of padding.
 */
module ImageFraming {
  import opened Options
  import opened Bytes
  import Ring

  const START_ADDR: nat := 0x20000
  const BLOCK_SIZE: nat := 0x1000

  /** A 16-bit word as it is stored. */
  function Word(x: nat): (b: seq<byte>)
    ensures |b| == 2
  {
    [x % 256, x / 256 % 256]
  }

  function ReadWord(b: seq<byte>): (x: nat)
    requires |b| == 2
  {
    var lo: int, hi: int := b[0], b[1];
    lo + 256 * hi
  }

  lemma WordReads(x: nat)
    ensures ReadWord(Word(x)) == x % 0x1_0000
  {
    var a := x / 256;
    assert x == 256 * a + x % 256 && a == 256 * (a / 256) + a % 256;
    Ring.DivisionUnique(x / 0x1_0000, x % 0x1_0000, a / 256, 256 * (a % 256) + x % 256, 0x1_0000);
  }

  /** Its bytes in plain numbers: the low one comes first. */
  lemma WordBytes(x: nat)
    ensures Word(x)[0] as int + 256 * (Word(x)[1] as int) == x % 0x1_0000
  {
    WordReads(x);
  }

  function BlockHeader(size: nat): (b: seq<byte>)
    ensures |b| == 4
  {
    Word(0x0401) + Word(size)
  }

  function First(file: seq<byte>): (n: nat)
    ensures n <= |file| && n <= BLOCK_SIZE && (file != [] ==> n > 0)
  {
    if |file| < BLOCK_SIZE then |file| else BLOCK_SIZE
  }

  /** The file in blocks. */
  function Blocks(file: seq<byte>): seq<byte>
    decreases |file|
  {
    if file == [] then []
    else BlockHeader(First(file)) + file[..First(file)] + Blocks(file[First(file)..])
  }

  function BlockCount(size: nat): nat {
    (size + BLOCK_SIZE - 1) / BLOCK_SIZE
  }

  /** The buffer's size: whole blocks, with at least one byte of padding. */
  function TotalSize(size: nat): nat {
    var used := START_ADDR + size + 4 * BlockCount(size);
    used + (BLOCK_SIZE - used % BLOCK_SIZE)
  }

  /** Taking the blocks apart again. */
  function Strip(b: seq<byte>): Option<seq<byte>>
    decreases |b|
  {
    if b == [] then Some([])
    else if |b| < 4 || b[..2] != Word(0x0401) then None
    else
      var n := ReadWord(b[2..4]);
      if n == 0 || 4 + n > |b| then None
      else match Strip(b[4 + n..])
        case None => None
        case Some(rest) => Some(b[4..4 + n] + rest)
  }

  lemma {:induction false} BlocksSize(file: seq<byte>)
    ensures |Blocks(file)| == |file| + 4 * BlockCount(|file|)
    decreases |file|
  {
    if file != [] {
      BlocksSize(file[First(file)..]);
    }
  }

  lemma BlockReads(n: nat, data: seq<byte>, rest: seq<byte>)
    requires n == |data| <= BLOCK_SIZE
    ensures var b := BlockHeader(n) + data + rest;
            b[..2] == Word(0x0401) && ReadWord(b[2..4]) == n && b[4..4 + n] == data && b[4 + n..] == rest
  {
    WordReads(n);
    var b := BlockHeader(n) + data + rest;
    assert b[2..4] == Word(n);
  }

  /** Stripping the block headers gives back the file. */
  lemma {:induction false} StripBlocks(file: seq<byte>)
    ensures Strip(Blocks(file)) == Some(file)
    decreases |file|
  {
    if file != [] {
      var n := First(file);
      hide BlockHeader, Word, Blocks;
      StripBlocks(file[n..]);
      BlockReads(n, file[..n], Blocks(file[n..]));
      BlocksFirst(file);
      assert file == file[..n] + file[n..];
    } else {
      assert Blocks([]) == [];
    }
  }

  /** A block at `o`, byte by byte: the mark, the size with its low byte first, and the part of the file. */
  ghost predicate IsBlock(b: seq<byte>, o: nat, part: seq<byte>) {
    && o + 4 + |part| <= |b|
    && b[o] == 0x01 && b[o + 1] == 0x04
    && b[o + 2] as int + 256 * (b[o + 3] as int) == |part|
    && b[o + 4..o + 4 + |part|] == part
  }

  lemma BlockHere(part: seq<byte>, rest: seq<byte>)
    requires |part| <= BLOCK_SIZE
    ensures IsBlock(BlockHeader(|part|) + part + rest, 0, part)
  {
    WordBytes(|part|);
    var b := BlockHeader(|part|) + part + rest;
    assert Word(0x0401) == [0x01, 0x04];
    assert b[..4] == BlockHeader(|part|);
  }

  lemma BlockBehind(head: seq<byte>, tail: seq<byte>, more: seq<byte>, o: nat, part: seq<byte>)
    requires IsBlock(tail, o, part)
    ensures IsBlock(head + tail + more, |head| + o, part)
  {
    var b, p := head + tail + more, |head| + o;
    assert b[p + 4..p + 4 + |part|] == tail[o + 4..o + 4 + |part|];
  }

  /** Part `k` of the file. */
  function Part(file: seq<byte>, k: nat): seq<byte>
    requires k * BLOCK_SIZE < |file|
  {
    if (k + 1) * BLOCK_SIZE < |file| then file[k * BLOCK_SIZE..(k + 1) * BLOCK_SIZE] else file[k * BLOCK_SIZE..]
  }

  lemma PartLater(file: seq<byte>, k: nat)
    requires k > 0 && k * BLOCK_SIZE < |file|
    ensures First(file) == BLOCK_SIZE && (k - 1) * BLOCK_SIZE < |file[BLOCK_SIZE..]|
    ensures Part(file[BLOCK_SIZE..], k - 1) == Part(file, k)
  {
    var rest, a, b := file[BLOCK_SIZE..], k * BLOCK_SIZE, (k + 1) * BLOCK_SIZE;
    assert (k - 1) * BLOCK_SIZE == a - BLOCK_SIZE && b == a + BLOCK_SIZE;
    assert rest[a - BLOCK_SIZE..] == file[a..];
    if b < |file| {
      assert rest[a - BLOCK_SIZE..b - BLOCK_SIZE] == file[a..b];
    }
  }

  lemma {:induction false} BlockAt(file: seq<byte>, k: nat)
    requires k * BLOCK_SIZE < |file|
    ensures IsBlock(Blocks(file), k * (4 + BLOCK_SIZE), Part(file, k))
    decreases k
  {
    BlocksFirst(file);
    var n := First(file);
    hide Blocks, BlockHeader, IsBlock;
    if k == 0 {
      assert Part(file, 0) == file[..n];
      BlockHere(file[..n], Blocks(file[n..]));
    } else {
      hide First, Part;
      PartLater(file, k);
      BlockAt(file[n..], k - 1);
      var head := BlockHeader(n) + file[..n];
      BlockBehind(head, Blocks(file[n..]), [], (k - 1) * (4 + BLOCK_SIZE), Part(file, k));
      assert head + Blocks(file[n..]) + [] == Blocks(file);
    }
  }

  lemma BlocksFirst(file: seq<byte>)
    requires file != []
    ensures Blocks(file) == BlockHeader(First(file)) + file[..First(file)] + Blocks(file[First(file)..])
  {
  }

  function Filler(n: nat): (b: seq<byte>)
    ensures |b| == n
  {
    seq(n, _ => 0xFF)
  }

  /** The preamble: start and end address in units of four bytes, and the flags. */
  function Preamble(total: nat): (b: seq<byte>)
    ensures |b| == START_ADDR
  {
    var b := Filler(START_ADDR);
    var b := Overwrite(b, 0, Word(START_ADDR / 4));
    var b := Overwrite(b, 2, Word(START_ADDR / 4 / 0x1_0000));
    var b := Overwrite(b, 4, Word(total / 4));
    var b := Overwrite(b, 6, Word(total / 4 / 0x1_0000));
    Overwrite(b, 128, Word(0xFF05))
  }

  /** The whole buffer. */
  function Image(file: seq<byte>): seq<byte>
  {
    var blocks := Blocks(file);
    var total := TotalSize(|file|);
    BlocksSize(file);
    Preamble(total) + blocks + Filler(total - START_ADDR - |blocks|)
  }

  /** memset to 0xFF */
  method Fill(data: array<byte>, from: nat, n: nat)
    requires from + n <= data.Length
    modifies data
    ensures data[..] == Overwrite(old(data[..]), from, Filler(n))
  {
    forall i | from <= i < from + n {
      data[i] := 0xFF;
    }
  }

  method Put(data: array<byte>, at: nat, bytes: seq<byte>)
    requires at + |bytes| <= data.Length
    modifies data
    ensures data[..] == Overwrite(old(data[..]), at, bytes)
  {
    forall i | at <= i < at + |bytes| {
      data[i] := bytes[i - at];
    }
  }

  /** Writing behind what is written. */
  lemma Extends(was: seq<byte>, at: nat, bytes: seq<byte>)
    requires at + |bytes| <= |was|
    ensures Overwrite(was, at, bytes)[..at + |bytes|] == was[..at] + bytes
  {
  }

  /** One block: its header, stored as 16-bit words at index `at >> 1`, and `bytes`. */
  method PutBlock(data: array<byte>, at: nat, bytes: seq<byte>)
    requires at + 4 + |bytes| <= data.Length && at % 2 == 0
    modifies data
    ensures data[..at + 4 + |bytes|] == old(data[..at]) + BlockHeader(|bytes|) + bytes
  {
    hide Overwrite, Word;
    var w := at / 2;
    Extends(data[..], 2 * w, Word(0x0401));
    Put(data, 2 * w, Word(0x0401));
    Extends(data[..], 2 * (w + 1), Word(|bytes|));
    Put(data, 2 * (w + 1), Word(|bytes|));
    Extends(data[..], at + 4, bytes);
    Put(data, at + 4, bytes);
    assert data[..][..at + 4 + |bytes|] == data[..at + 4 + |bytes|];
  }

  lemma OverwriteHead(was: seq<byte>, n: nat, at: nat, bytes: seq<byte>)
    requires at + |bytes| <= n <= |was|
    ensures Overwrite(was, at, bytes)[..n] == Overwrite(was[..n], at, bytes)
  {
  }

  /** A word of the preamble. */
  method PutWord(data: array<byte>, w: nat, x: nat)
    requires 2 * w + 2 <= START_ADDR <= data.Length
    modifies data
    ensures data[..START_ADDR] == Overwrite(old(data[..START_ADDR]), 2 * w, Word(x))
  {
    hide Overwrite;
    OverwriteHead(data[..], START_ADDR, 2 * w, Word(x));
    assert data[..][..START_ADDR] == data[..START_ADDR];
    Put(data, 2 * w, Word(x));
    assert data[..][..START_ADDR] == data[..START_ADDR];
  }

  method MakePreamble(data: array<byte>, total: nat)
    requires START_ADDR <= data.Length
    modifies data
    ensures data[..START_ADDR] == Preamble(total)
  {
    Extends(data[..], 0, Filler(START_ADDR));
    Fill(data, 0, START_ADDR);
    assert data[..START_ADDR] == data[..][..START_ADDR] == Filler(START_ADDR);
    hide Overwrite, Word, Filler;
    PutWord(data, 0, START_ADDR / 4);
    PutWord(data, 1, START_ADDR / 4 / 0x1_0000);
    PutWord(data, 2, total / 4);
    PutWord(data, 3, total / 4 / 0x1_0000);
    PutWord(data, 64, 0xFF05);
  }

  /** The blocks written so far and those to come. */
  ghost predicate Written(data: seq<byte>, total: nat, file: seq<byte>, i: nat, offset: nat) {
    && i <= |data| && offset <= |file|
    && data[..i] + Blocks(file[offset..]) == Preamble(total) + Blocks(file)
    && i + |Blocks(file[offset..])| == START_ADDR + |Blocks(file)|
  }

  lemma BlockWritten(was: seq<byte>, now: seq<byte>, total: nat, file: seq<byte>, i: nat, offset: nat, n: nat)
    requires Written(was, total, file, i, offset) && offset < |file| && n == First(file[offset..])
    requires i + 4 + n <= |now| && now[..i + 4 + n] == was[..i] + BlockHeader(n) + file[offset..offset + n]
    ensures Written(now, total, file, i + 4 + n, offset + n)
  {
    hide Blocks, BlockHeader, Preamble;
    var rest := file[offset..];
    BlocksFirst(rest);
    assert rest[..n] == file[offset..offset + n] && rest[n..] == file[offset + n..];
    var head, bytes, tail := BlockHeader(n), file[offset..offset + n], Blocks(file[offset + n..]);
    assert was[..i] + head + bytes + tail == was[..i] + (head + bytes + tail);
  }

  /** `size` bytes that begin with what the file gives. */
  function Promised(content: seq<byte>, size: nat): (file: seq<byte>)
    ensures |file| == size
  {
    if |content| < size then content + Filler(size - |content|) else content[..size]
  }

  lemma PromisedPart(content: seq<byte>, size: nat, a: nat, b: nat)
    requires a <= b <= |content| && b <= size
    ensures Promised(content, size)[a..b] == content[a..b]
  {
  }

  /**
   nfb_fw_open_rbf, for a file that says it has `size` bytes and gives those of `content`.
   It fails exactly when it gives fewer; otherwise the buffer is the image, and the result
   where its padding starts.
   */
  method OpenRbf(content: seq<byte>, size: nat) returns (data: Option<array<byte>>, end: nat)
    ensures data == None <==> |content| < size
    ensures data.Some? ==>
              && fresh(data.value) && data.value[..] == Image(content[..size])
              && end == START_ADDR + size + 4 * BlockCount(size) < data.value.Length == TotalSize(size)
  {
    hide Blocks, Preamble, Word, BlockHeader, Overwrite, First, Promised, Filler;
    end := 0;
    var total := TotalSize(size);
    var d := new byte[total];
    MakePreamble(d, total);
    var i: nat, offset: nat, blockSize := START_ADDR, 0, BLOCK_SIZE;
    ghost var file := Promised(content, size);
    BlocksSize(file);
    assert file[0..] == file;
    while offset < size
      invariant offset <= size && offset <= |content| && |file| == size && d.Length == total
      invariant blockSize == BLOCK_SIZE || offset == size
      // The write index is even where a block header goes, so its 16-bit index loses nothing.
      invariant offset < size ==> i % 2 == 0
      invariant Written(d[..], total, file, i, offset)
    {
      if blockSize > size - offset {
        blockSize := size - offset;
      }
      Remaining(file, offset);
      if offset + blockSize > |content| {
        return None, end;
      }
      PromisedPart(content, size, offset, offset + blockSize);
      ghost var was := d[..];
      PutBlock(d, i, content[offset..offset + blockSize]);
      assert d[..][..i + 4 + blockSize] == d[..i + 4 + blockSize];
      BlockWritten(was, d[..], total, file, i, offset, blockSize);
      i := i + 4;
      offset := offset + blockSize;
      i := i + blockSize;
    }
    Finished(d[..], total, file, i);
    Fill(d, i, total - i);
    PromisedPart(content, size, 0, size);
    assert file == file[0..size] && content[0..size] == content[..size];
    return Some(d), i;
  }

  /** Behind the last block comes the padding. */
  lemma Finished(was: seq<byte>, total: nat, file: seq<byte>, i: nat)
    requires Written(was, total, file, i, |file|) && |was| == total == TotalSize(|file|)
    ensures i == START_ADDR + |file| + 4 * BlockCount(|file|) < total
    ensures Overwrite(was, i, Filler(total - i)) == Image(file)
  {
    hide Preamble, Word;
    assert file[|file|..] == [];
    BlocksSize(file);
    var w := was[..i] + Blocks([]);
    assert was[..i] == w;
  }

  /** How much is left to write. */
  lemma Remaining(file: seq<byte>, offset: nat)
    requires offset < |file|
    ensures First(file[offset..]) == if BLOCK_SIZE > |file| - offset then |file| - offset else BLOCK_SIZE
    ensures |Blocks(file[offset..])| >= 4 + First(file[offset..])
  {
    BlocksFirst(file[offset..]);
  }

  /** The padding is at least one byte and at most a block. */
  lemma PaddingBound(file: seq<byte>)
    ensures var end := START_ADDR + |file| + 4 * BlockCount(|file|);
            end < |Image(file)| <= end + BLOCK_SIZE
  {
    BlocksSize(file);
    hide Blocks, Preamble, BlockCount;
  }

  /** So every part of the file is where it belongs in the image. */
  lemma ImageBlock(file: seq<byte>, k: nat)
    requires k * BLOCK_SIZE < |file|
    ensures IsBlock(Image(file), START_ADDR + k * (4 + BLOCK_SIZE), Part(file, k))
  {
    hide Blocks, Preamble, IsBlock, Part, BlockCount;
    BlocksSize(file);
    BlockAt(file, k);
    var total := TotalSize(|file|);
    BlockBehind(Preamble(total), Blocks(file), Filler(total - START_ADDR - |Blocks(file)|), k * (4 + BLOCK_SIZE),
                Part(file, k));
  }

  /** Between the preamble and the padding, the image is the file and nothing else. */
  lemma ImageStrips(file: seq<byte>)
    ensures var end := START_ADDR + |file| + 4 * BlockCount(|file|);
            && end < |Image(file)| && |Image(file)| % BLOCK_SIZE == 0
            && Strip(Image(file)[START_ADDR..end]) == Some(file)
            && forall k | end <= k < |Image(file)| :: Image(file)[k] == 0xFF
  {
    hide Blocks, Preamble, Strip;
    BlocksSize(file);
    StripBlocks(file);
    assert Image(file)[START_ADDR..START_ADDR + |Blocks(file)|] == Blocks(file);
  }

  /** What bytes `at` to `at + 3` say, the low one first. */
  function Long(b: seq<byte>, at: nat): int
    requires at + 4 <= |b|
  {
    b[at] as int + 256 * (b[at + 1] as int) + 0x1_0000 * (b[at + 2] as int) + 0x100_0000 * (b[at + 3] as int)
  }

  /**
   The preamble begins with the start and the end of the image, in units of four bytes; the flags
   are at byte 128, and all else is 0xFF.
   */
  lemma PreambleAddresses(total: nat)
    requires total / 4 < 0x1_0000_0000
    ensures Long(Preamble(total), 0) == START_ADDR / 4 && Long(Preamble(total), 4) == total / 4
    ensures Preamble(total)[128] == 0x05
    ensures forall i | 8 <= i < START_ADDR && i != 128 :: Preamble(total)[i] == 0xFF
  {
    PreambleWords(total);
    PreambleRest(total);
    var b := Preamble(total);
    hide Preamble;
    WordBytes(START_ADDR / 4);
    WordBytes(START_ADDR / 4 / 0x1_0000);
    WordBytes(total / 4);
    WordBytes(total / 4 / 0x1_0000);
    assert Word(0xFF05) == [0x05, 0xFF];
    hide Word;
    assert b[0..2] == [b[0], b[1]] && b[2..4] == [b[2], b[3]];
    assert b[4..6] == [b[4], b[5]] && b[6..8] == [b[6], b[7]] && b[128..130] == [b[128], b[129]];
  }

  lemma PreambleRest(total: nat)
    ensures forall i | 8 <= i < START_ADDR && i != 128 && i != 129 :: Preamble(total)[i] == 0xFF
  {
    var b0 := Filler(START_ADDR);
    var b1 := Overwrite(b0, 0, Word(START_ADDR / 4));
    var b2 := Overwrite(b1, 2, Word(START_ADDR / 4 / 0x1_0000));
    var b3 := Overwrite(b2, 4, Word(total / 4));
    var b4 := Overwrite(b3, 6, Word(total / 4 / 0x1_0000));
    hide Word, Overwrite;
    OverwriteLeaves(b0, 0, Word(START_ADDR / 4));
    OverwriteLeaves(b1, 2, Word(START_ADDR / 4 / 0x1_0000));
    OverwriteLeaves(b2, 4, Word(total / 4));
    OverwriteLeaves(b3, 6, Word(total / 4 / 0x1_0000));
    OverwriteLeaves(b4, 128, Word(0xFF05));
    assert Preamble(total) == Overwrite(b4, 128, Word(0xFF05));
    hide Preamble;
  }

  lemma OverwriteLeaves(b: seq<byte>, at: nat, w: seq<byte>)
    requires |w| == 2 && at + 2 <= |b|
    ensures forall i | 0 <= i < |b| && i != at && i != at + 1 :: Overwrite(b, at, w)[i] == b[i]
  {
  }

  lemma PreambleWords(total: nat)
    ensures var b := Preamble(total);
            && b[0..2] == Word(START_ADDR / 4) && b[2..4] == Word(START_ADDR / 4 / 0x1_0000)
            && b[4..6] == Word(total / 4) && b[6..8] == Word(total / 4 / 0x1_0000) && b[128..130] == Word(0xFF05)
  {
    hide Word, Filler;
    var b0 := Filler(START_ADDR);
    var b1 := Overwrite(b0, 0, Word(START_ADDR / 4));
    var b2 := Overwrite(b1, 2, Word(START_ADDR / 4 / 0x1_0000));
    var b3 := Overwrite(b2, 4, Word(total / 4));
    var b4 := Overwrite(b3, 6, Word(total / 4 / 0x1_0000));
    hide Overwrite;
    OverwriteReads(b0, 0, Word(START_ADDR / 4));
    OverwriteReads(b1, 2, Word(START_ADDR / 4 / 0x1_0000));
    OverwriteReads(b2, 4, Word(total / 4));
    OverwriteReads(b3, 6, Word(total / 4 / 0x1_0000));
    OverwriteReads(b4, 128, Word(0xFF05));
  }

  /** What is written reads back, and what is below it is as before. */
  lemma OverwriteReads(b: seq<byte>, at: nat, w: seq<byte>)
    requires |w| == 2 && at + 2 <= |b|
    ensures var b' := Overwrite(b, at, w);
            b'[at] == w[0] && b'[at + 1] == w[1] && forall i | 0 <= i < at :: b'[i] == b[i]
  {
  }
}

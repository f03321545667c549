/** task/fs/read_write.c: byte-granular reads and writes over whole sectors, in chunks of at
    most one file system buffer. */
module ReadWrite {
  import opened Bits

  const CHUNK := 2048 // FS_BUF_SIZE in sectors

  // ---- a flat byte array ----

  /** `d'` is `d` with the bytes from `at` up to `at + n` taken from `data`, and no other change. */
  ghost predicate Written(d: seq<byte>, d': seq<byte>, at: nat, data: seq<byte>, n: nat) {
    && |d'| == |d| && n <= |data|
    && forall i :: 0 <= i < |d| ==> d'[i] == if at <= i < at + n then data[i - at] else d[i]
  }

  /** `out` is `buf` with its first `n` bytes replaced by those of `d` from `at` on. */
  ghost predicate Copied(d: seq<byte>, at: nat, buf: seq<byte>, out: seq<byte>, n: nat) {
    && |out| == |buf| && n <= |buf| && (n > 0 ==> at + n <= |d|)
    && forall i :: 0 <= i < |buf| ==> out[i] == if i < n then d[at + i] else buf[i]
  }

  // ---- how much a call transfers ----

  function Min(a: int, b: int): int { if a < b then a else b }

  function Max(a: int, b: int): int { if a > b then a else b }

  /** Sectors the loop visits when it starts at sector `lo` and runs while not past `hi`. */
  function SectorsVisited(lo: nat, hi: nat): nat {
    var n := hi - lo + 1;
    if n <= 0 then 0 else if n <= CHUNK then n else (n + CHUNK - 1) / CHUNK * CHUNK
  }

  /** The first sector behind those a call touches, for bytes `pos` up to `end` of a file at `start`. */
  function Reaches(start: nat, pos: nat, end: nat): nat {
    start + pos / SECTOR_SIZE + SectorsVisited(pos / SECTOR_SIZE, end / SECTOR_SIZE)
  }

  /** Bytes moved by a call at `pos` for `len` bytes, `limit` being the file size for a read
      and the capacity for a write. */
  function Transfer(pos: nat, len: nat, limit: nat): (t: nat)
    ensures t <= len
  {
    var end := Min(pos + len, limit);
    Max(0, Min(len, SectorsVisited(pos / SECTOR_SIZE, end / SECTOR_SIZE) * SECTOR_SIZE - pos % SECTOR_SIZE))
  }

  /** Inside the limit everything asked for is transferred; beyond it the transfer still
      passes the limit, because only whole sectors are clipped. */
  lemma TransferExact(pos: nat, len: nat, limit: nat)
    requires pos <= limit
    ensures pos + len <= limit ==> Transfer(pos, len, limit) == len
    ensures pos + Transfer(pos, len, limit) <= limit <==> pos + len <= limit
  {
    var end := Min(pos + len, limit);
    var n := end / SECTOR_SIZE - pos / SECTOR_SIZE + 1;
    assert SectorsVisited(pos / SECTOR_SIZE, end / SECTOR_SIZE) >= n >= 1;
    assert (end / SECTOR_SIZE + 1) * SECTOR_SIZE > end;
  }

  /** However much is asked for, the transfer passes the limit by at most one buffer. */
  lemma OverrunBound(pos: nat, len: nat, limit: nat)
    requires pos <= limit
    ensures pos + Transfer(pos, len, limit) <= limit + CHUNK * SECTOR_SIZE
  {
    var end := Min(pos + len, limit);
    var n := end / SECTOR_SIZE - pos / SECTOR_SIZE + 1;
    assert SectorsVisited(pos / SECTOR_SIZE, end / SECTOR_SIZE) <= n + CHUNK - 1;
    assert pos == pos / SECTOR_SIZE * SECTOR_SIZE + pos % SECTOR_SIZE;
  }

  /** A file of 2048 sectors written from its start with twice its capacity: the loop makes a
      second round over a whole buffer, one megabyte past the end of the extent. */
  lemma OverrunByAMegabyte()
    ensures Transfer(0, 2 * 2048 * SECTOR_SIZE, 2048 * SECTOR_SIZE) == 2 * 2048 * SECTOR_SIZE
  {
    assert SectorsVisited(0, 2048) == 4096;
  }

  /** The chunk loop of a call runs over sectors of the disk, `start` sectors further on than in the
      file. */
  lemma LoopPlace(start: nat, pos: nat, end: nat)
    ensures var lo, hi := start + pos / SECTOR_SIZE, start + end / SECTOR_SIZE;
            && SectorsVisited(lo, hi) == SectorsVisited(pos / SECTOR_SIZE, end / SECTOR_SIZE)
            && lo + SectorsVisited(lo, hi) == Reaches(start, pos, end)
            && lo * SECTOR_SIZE + pos % SECTOR_SIZE == start * SECTOR_SIZE + pos
  {
    assert pos == pos / SECTOR_SIZE * SECTOR_SIZE + pos % SECTOR_SIZE;
  }

  function OffsetAt(lo: nat, i: nat, o: nat): nat { if i == lo then o else 0 }

  /** Where the chunk loop stands at sector `i` with `done` bytes moved, `o` being the offset
      of the first byte in its sector. */
  predicate Cursor(lo: nat, hi: nat, len: nat, o: nat, i: nat, done: int) {
    var n := hi - lo + 1;
    var visited := SectorsVisited(lo, hi);
    && (if n <= CHUNK then i == lo || (i > hi && i == lo + visited)
        else (i - lo) % CHUNK == 0 && lo <= i <= lo + visited)
    && done == Max(0, Min(len, (i - lo) * SECTOR_SIZE - o))
  }

  lemma CursorStart(lo: nat, hi: nat, len: nat, o: nat)
    ensures Cursor(lo, hi, len, o, lo, 0)
  {}

  lemma CursorStep(lo: nat, hi: nat, len: nat, o: nat, i: nat, done: int)
    requires Cursor(lo, hi, len, o, i, done) && lo <= i <= hi && o < SECTOR_SIZE
    ensures var chunk := Min(hi - lo + 1, CHUNK);
            var bytes := Min(len - done, chunk * SECTOR_SIZE - OffsetAt(lo, i, o));
            && 0 < chunk && i + chunk <= lo + SectorsVisited(lo, hi)
            && 0 <= bytes && done + bytes <= len && Cursor(lo, hi, len, o, i + chunk, done + bytes)
            && (bytes > 0 ==> lo * SECTOR_SIZE + o + done == i * SECTOR_SIZE + OffsetAt(lo, i, o))
  {
    if hi - lo + 1 > CHUNK { RoundUpStep(hi - lo + 1, i - lo); }
  }

  /** A multiple of the chunk size below `n` can be raised once without passing `n` rounded up. */
  lemma RoundUpStep(n: nat, x: nat)
    requires x < n && x % CHUNK == 0
    ensures x + CHUNK <= (n + CHUNK - 1) / CHUNK * CHUNK && (x + CHUNK) % CHUNK == 0
  {}

  /** Past the last sector all visited sectors are done. */
  lemma CursorEnd(lo: nat, hi: nat, len: nat, o: nat, i: nat, done: int)
    requires Cursor(lo, hi, len, o, i, done) && i > hi
    ensures done == Max(0, Min(len, SectorsVisited(lo, hi) * SECTOR_SIZE - o))
  {
  }

  /** The bytes of the file that occupies `n` sectors at sector `start`. */
  function FileBytes(d: seq<byte>, start: nat, n: nat): seq<byte>
    requires (start + n) * SECTOR_SIZE <= |d|
  {
    d[start * SECTOR_SIZE..(start + n) * SECTOR_SIZE]
  }

  /** `f'` is the file `f` with `buf` at position `pos`. */
  predicate Patched(f: seq<byte>, f': seq<byte>, pos: nat, buf: seq<byte>) {
    |f'| == |f| && forall i :: 0 <= i < |f| ==> f'[i] == if pos <= i < pos + |buf| then buf[i - pos] else f[i]
  }

  /** A write within the capacity changes exactly its own bytes of its own file, and no file
      in a disjoint extent. */
  lemma WriteIsFlat(d: seq<byte>, d': seq<byte>, start: nat, n: nat, pos: nat, buf: seq<byte>, start2: nat, n2: nat)
    requires (start + n) * SECTOR_SIZE <= |d| && (start2 + n2) * SECTOR_SIZE <= |d| && pos + |buf| <= n * SECTOR_SIZE
    requires start + n <= start2 || start2 + n2 <= start
    requires Written(d, d', start * SECTOR_SIZE + pos, buf, |buf|)
    ensures Patched(FileBytes(d, start, n), FileBytes(d', start, n), pos, buf)
    ensures FileBytes(d', start2, n2) == FileBytes(d, start2, n2)
  {
    var a, b := FileBytes(d, start2, n2), FileBytes(d', start2, n2);
    forall i | 0 <= i < |a| ensures b[i] == a[i] {
      assert d'[start2 * SECTOR_SIZE + i] == d[start2 * SECTOR_SIZE + i];
    }
  }

  class Device {
    const disk: array<byte>
    const fsbuf: array<byte>

    ghost predicate Valid() {
      disk != fsbuf && fsbuf.Length == CHUNK * SECTOR_SIZE
    }

    constructor (image: seq<byte>)
      ensures Valid() && fresh(disk) && fresh(fsbuf) && disk[..] == image
    {
      disk := new byte[|image|](i requires 0 <= i < |image| => image[i]);
      fsbuf := new byte[CHUNK * SECTOR_SIZE](i => 0);
      new;
      assert disk[..] == image;
    }

    /** RD_SECTS. */
    method RdSects(sect: nat, n: nat)
      requires Valid() && n <= CHUNK && (sect + n) * SECTOR_SIZE <= disk.Length
      modifies fsbuf
      ensures forall i :: 0 <= i < n * SECTOR_SIZE ==> fsbuf[i] == disk[sect * SECTOR_SIZE + i]
    {
      forall i | 0 <= i < n * SECTOR_SIZE {
        fsbuf[i] := disk[sect * SECTOR_SIZE + i];
      }
    }

    /** WR_SECTS. */
    method WrSects(sect: nat, n: nat)
      requires Valid() && n <= CHUNK && (sect + n) * SECTOR_SIZE <= disk.Length
      modifies disk
      ensures forall i :: 0 <= i < disk.Length ==>
                disk[i] == if sect * SECTOR_SIZE <= i < (sect + n) * SECTOR_SIZE
                           then fsbuf[i - sect * SECTOR_SIZE] else old(disk[i])
    {
      forall i | sect * SECTOR_SIZE <= i < (sect + n) * SECTOR_SIZE {
        disk[i] := fsbuf[i - sect * SECTOR_SIZE];
      }
    }

    /** One round of the loop for FS_WRITE: read the chunk, patch `bytes` bytes of `buf` from
        index `done` on into it, write it back. */
    method WriteChunk(sect: nat, n: nat, off: nat, buf: seq<byte>, done: nat, bytes: nat)
      requires Valid() && n <= CHUNK && (sect + n) * SECTOR_SIZE <= disk.Length
      requires off + bytes <= n * SECTOR_SIZE && done + bytes <= |buf|
      modifies disk, fsbuf
      ensures var at := sect * SECTOR_SIZE + off;
              forall i :: 0 <= i < disk.Length ==>
                    disk[i] == if at <= i < at + bytes then buf[done + (i - at)] else old(disk[i])
    {
      RdSects(sect, n);
      forall i | off <= i < off + bytes {
        fsbuf[i] := buf[done + (i - off)];
      }
      WrSects(sect, n);
    }

    /** One round of the loop for FS_READ. */
    method ReadChunk(sect: nat, n: nat, off: nat, out: seq<byte>, done: nat, bytes: nat) returns (out': seq<byte>)
      requires Valid() && n <= CHUNK && (sect + n) * SECTOR_SIZE <= disk.Length
      requires off + bytes <= n * SECTOR_SIZE && done + bytes <= |out|
      modifies fsbuf
      ensures |out'| == |out|
      ensures forall i :: 0 <= i < |out| ==>
                out'[i] == if done <= i < done + bytes then disk[sect * SECTOR_SIZE + off + (i - done)] else out[i]
    {
      RdSects(sect, n);
      out' := out[..done] + fsbuf[off..off + bytes] + out[done + bytes..];
    }

    /** Moves the next `bytes` bytes between the caller's buffer and the chunk at `sect`. */
    method MoveBytes(write: bool, sect: nat, n: nat, off: nat, buf: seq<byte>, out: seq<byte>, done: nat, bytes: nat,
                     ghost d: seq<byte>, ghost base: nat) returns (out': seq<byte>)
      requires Valid() && n <= CHUNK && (sect + n) * SECTOR_SIZE <= disk.Length && off + bytes <= n * SECTOR_SIZE
      requires done + bytes <= |buf| && (bytes > 0 ==> base + done == sect * SECTOR_SIZE + off)
      requires Moved(write, d, disk[..], base, buf, out, done)
      modifies disk, fsbuf
      ensures Moved(write, d, disk[..], base, buf, out', done + bytes)
    {
      if write {
        WriteChunk(sect, n, off, buf, done, bytes);
        out' := out;
      } else {
        out' := ReadChunk(sect, n, off, out, done, bytes);
      }
    }

    /** do_read_write_regular on a file of `nsects` sectors at sector `start`; `buf` is the
        caller's buffer. */
    method DoReadWriteRegular(write: bool, start: nat, nsects: nat, size: nat, pos: nat, buf: seq<byte>)
      returns (bytesRw: nat, out: seq<byte>, pos': nat, size': nat)
      requires Valid()
      requires var end := Min(pos + |buf|, if write then nsects * SECTOR_SIZE else size);
               Reaches(start, pos, end) * SECTOR_SIZE <= disk.Length
      modifies disk, fsbuf
      ensures bytesRw == Transfer(pos, |buf|, if write then nsects * SECTOR_SIZE else size)
      ensures pos' == pos + bytesRw && size' == Max(size, pos')
      ensures Moved(write, old(disk[..]), disk[..], start * SECTOR_SIZE + pos, buf, out, bytesRw)
    {
      var end := Min(pos + |buf|, if write then nsects * SECTOR_SIZE else size);
      LoopPlace(start, pos, end);
      bytesRw, out := ChunkLoop(write, start + pos / SECTOR_SIZE, start + end / SECTOR_SIZE, pos % SECTOR_SIZE, buf);
      pos' := pos + bytesRw;
      size' := if pos' > size then pos' else size;
    }

    /** The chunk loop, from sector `lo` while not past sector `hi`; `o` is the offset of the
        first byte in its sector. */
    method ChunkLoop(write: bool, lo: nat, hi: nat, o: nat, buf: seq<byte>) returns (bytesRw: nat, out: seq<byte>)
      requires Valid() && o < SECTOR_SIZE && (lo + SectorsVisited(lo, hi)) * SECTOR_SIZE <= disk.Length
      modifies disk, fsbuf
      ensures bytesRw == Max(0, Min(|buf|, SectorsVisited(lo, hi) * SECTOR_SIZE - o))
      ensures Moved(write, old(disk[..]), disk[..], lo * SECTOR_SIZE + o, buf, out, bytesRw)
    {
      var off := o;
      var chunk := Min(hi - lo + 1, CHUNK);
      bytesRw := 0;
      out := buf;
      var i := lo;
      CursorStart(lo, hi, |buf|, o);
      while i <= hi
        invariant lo <= i && off == OffsetAt(lo, i, o)
        invariant Cursor(lo, hi, |buf|, o, i, bytesRw)
        invariant Moved(write, old(disk[..]), disk[..], lo * SECTOR_SIZE + o, buf, out, bytesRw)
        decreases hi - i
      {
        var bytes;
        bytes, out := ChunkRound(write, lo, hi, o, i, off, buf, out, bytesRw, old(disk[..]));
        off := 0;
        bytesRw := bytesRw + bytes;
        i := i + chunk;
      }
      CursorEnd(lo, hi, |buf|, o, i, bytesRw);
    }

    /** One round of the chunk loop. */
    method ChunkRound(write: bool, lo: nat, hi: nat, o: nat, i: nat, off: nat, buf: seq<byte>, out: seq<byte>,
                      done: nat, ghost d: seq<byte>) returns (bytes: nat, out': seq<byte>)
      requires Valid() && lo <= i <= hi && o < SECTOR_SIZE && off == OffsetAt(lo, i, o)
      requires (lo + SectorsVisited(lo, hi)) * SECTOR_SIZE <= disk.Length
      requires Cursor(lo, hi, |buf|, o, i, done)
      requires Moved(write, d, disk[..], lo * SECTOR_SIZE + o, buf, out, done)
      modifies disk, fsbuf
      ensures Cursor(lo, hi, |buf|, o, i + Min(hi - lo + 1, CHUNK), done + bytes)
      ensures Moved(write, d, disk[..], lo * SECTOR_SIZE + o, buf, out', done + bytes)
    {
      CursorStep(lo, hi, |buf|, o, i, done);
      var chunk := Min(hi - lo + 1, CHUNK);
      bytes := Min(|buf| - done, chunk * SECTOR_SIZE - off);
      out' := MoveBytes(write, i, chunk, off, buf, out, done, bytes, d, lo * SECTOR_SIZE + o);
    }

    /** A write within the capacity of the file at `start`: exactly its bytes [pos, pos+len) change,
        nothing of any file in a disjoint extent does, and the size is the larger of the old one
        and the end of the write. */
    method WriteFile(start: nat, nsects: nat, size: nat, pos: nat, buf: seq<byte>, ghost start2: nat, ghost n2: nat)
      returns (size': nat)
      requires Valid() && pos + |buf| <= nsects * SECTOR_SIZE
      requires (start + nsects) * SECTOR_SIZE <= disk.Length && (start2 + n2) * SECTOR_SIZE <= disk.Length
      requires start + nsects <= start2 || start2 + n2 <= start
      requires Reaches(start, pos, pos + |buf|) * SECTOR_SIZE <= disk.Length
      modifies disk, fsbuf
      ensures size' == Max(size, pos + |buf|)
      ensures Patched(old(FileBytes(disk[..], start, nsects)), FileBytes(disk[..], start, nsects), pos, buf)
      ensures FileBytes(disk[..], start2, n2) == old(FileBytes(disk[..], start2, n2))
    {
      TransferExact(pos, |buf|, nsects * SECTOR_SIZE);
      ghost var d := disk[..];
      var n, out, pos';
      n, out, pos', size' := DoReadWriteRegular(true, start, nsects, size, pos, buf);
      WriteIsFlat(d, disk[..], start, nsects, pos, buf, start2, n2);
    }

    /** A read that ends within the size returns exactly the bytes of the file, and changes neither
        the disk nor the size. */
    method ReadFile(start: nat, nsects: nat, size: nat, pos: nat, len: nat) returns (out: seq<byte>, size': nat)
      requires Valid() && pos + len <= size <= nsects * SECTOR_SIZE && (start + nsects) * SECTOR_SIZE <= disk.Length
      requires Reaches(start, pos, pos + len) * SECTOR_SIZE <= disk.Length
      modifies disk, fsbuf
      ensures disk[..] == old(disk[..]) && size' == size
      ensures out == FileBytes(disk[..], start, nsects)[pos..pos + len]
    {
      TransferExact(pos, len, size);
      var n, pos';
      n, out, pos', size' := DoReadWriteRegular(false, start, nsects, size, pos, seq(len, i => 0));
      assert forall i :: 0 <= i < len ==> out[i] == disk[start * SECTOR_SIZE + pos + i];
    }

    /** What was written within the capacity is what a read at the same place returns. */
    method WriteThenRead(start: nat, nsects: nat, size: nat, pos: nat, buf: seq<byte>) returns (out: seq<byte>)
      requires Valid() && pos + |buf| <= nsects * SECTOR_SIZE
      requires Reaches(start, pos, pos + |buf|) * SECTOR_SIZE <= disk.Length
      modifies disk, fsbuf
      ensures out == buf
    {
      TransferExact(pos, |buf|, nsects * SECTOR_SIZE);
      var n, o, p, size' := DoReadWriteRegular(true, start, nsects, size, pos, buf);
      ghost var d := disk[..];
      TransferExact(pos, |buf|, size');
      n, out, p, size' := DoReadWriteRegular(false, start, nsects, size', pos, seq(|buf|, i => 0));
    }
  }

  /** After moving `done` bytes: a write has put them at `base` on the disk and changed no
      other byte; a read has copied them from there and changed no disk byte. */
  ghost predicate Moved(write: bool, d: seq<byte>, d': seq<byte>, base: nat, buf: seq<byte>, out: seq<byte>,
                        done: nat) {
    && (done > 0 ==> base + done <= |d|)
    && (if write then out == buf && Written(d, d', base, buf, done) else d' == d && Copied(d, base, buf, out, done))
  }
}

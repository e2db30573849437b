/** DiskStubLib.c: a byte-addressed disk (section 13.7 of the UEFI Specification 2.10, Disk I/O Protocol)
    over a device that reads and writes whole blocks. */
module Disk {
  import opened Arithmetic
  import opened Efi

  const DATA_BUFFER_BLOCK_NUM: nat := 64

  /** `s` with the bytes from `at` on replaced by `t`. */
  ghost function Overlay(s: seq<Byte>, at: nat, t: seq<Byte>): (r: seq<Byte>)
    requires at + |t| <= |s|
    ensures |r| == |s|
  {
    seq(|s|, i requires 0 <= i < |s| => if at <= i < at + |t| then t[i - at] else s[i])
  }

  /** CopyMem between two buffers. */
  method CopyMem(destination: array<Byte>, to: nat, source: array<Byte>, from: nat, length: nat)
    requires destination != source && to + length <= destination.Length && from + length <= source.Length
    modifies destination
    ensures destination[..] == Overlay(old(destination[..]), to, source[from..from + length])
  {
    forall i | 0 <= i < length {
      destination[to + i] := source[from + i];
    }
  }

  // ---------- one transfer after another ----------

  lemma OverlayNothing(s: seq<Byte>, at: nat)
    requires at <= |s|
    ensures Overlay(s, at, []) == s
  {
  }

  /** Two adjoining transfers are one. */
  lemma OverlayJoins(s: seq<Byte>, at: nat, t: seq<Byte>, u: seq<Byte>)
    requires at + |t| + |u| <= |s|
    ensures Overlay(Overlay(s, at, t), at + |t|, u) == Overlay(s, at, t + u)
  {
  }

  lemma SlicesJoin(s: seq<Byte>, from: nat, m: nat, n: nat)
    requires from + m + n <= |s|
    ensures s[from..from + m] + s[from + m..from + m + n] == s[from..from + m + n]
  {
  }

  /** Reading a block, changing bytes of it and writing it back changes just these bytes. */
  lemma OverlayWithin(s: seq<Byte>, at: nat, data: seq<Byte>, under: nat, t: seq<Byte>, size: nat)
    requires under + |t| <= size <= |data| && at + size <= |s|
    ensures Overlay(s, at, Overlay(Overlay(data, 0, s[at..at + size]), under, t)[..size]) == Overlay(s, at + under, t)
  {
  }

  lemma OverlaySlice(s: seq<Byte>, store: seq<Byte>, start: nat, size: nat, under: nat, n: nat)
    requires under + n <= size <= |s| && start + size <= |store|
    ensures Overlay(s, 0, store[start..start + size])[under..under + n] == store[start + under..start + under + n]
  {
    var o := Overlay(s, 0, store[start..start + size]);
    var a, b := o[under..under + n], store[start + under..start + under + n];
    forall i | 0 <= i < n ensures a[i] == b[i] {
      assert a[i] == o[under + i] == store[start..start + size][under + i];
    }
  }

  /** Bytes of a store into which `data` was written. */
  ghost function ByteAfter(store: seq<Byte>, offset: nat, data: seq<Byte>, i: nat): Byte
    requires i < |store|
  {
    if offset <= i < offset + |data| then data[i - offset] else store[i]
  }

  /** What a read of any range finds after a write of any other. */
  lemma ReadAfterWrite(store: seq<Byte>, offset: nat, data: seq<Byte>, from: nat, buffer: seq<Byte>, n: nat)
    requires offset + |data| <= |store| && from + n <= |store| && n <= |buffer|
    ensures var seen := Overlay(buffer, 0, Overlay(store, offset, data)[from..from + n]);
            && (forall i :: 0 <= i < n ==> seen[i] == ByteAfter(store, offset, data, from + i))
            && (forall i :: n <= i < |buffer| ==> seen[i] == buffer[i])
  {
  }

  // ---------- blocks ----------

  /** DivU64x32Remainder: quotient and remainder. */
  function Quotient(x: nat, blockSize: nat): nat
    requires blockSize > 0
  {
    x / blockSize
  }

  function Remainder(x: nat, blockSize: nat): (r: nat)
    requires blockSize > 0
    ensures r < blockSize
  {
    x % blockSize
  }

  /** MultU64x32: where block `lba` starts. */
  function Bytes(blockSize: nat, lba: nat): nat {
    blockSize * lba
  }

  /** Counting in blocks and counting in bytes agree. */
  lemma BlocksInBytes(blockSize: nat, blocks: nat, lba: nat, size: nat)
    requires blockSize > 0 && size > 0 && Remainder(size, blockSize) == 0
    ensures lba < blocks && lba + Quotient(size, blockSize) - 1 <= blocks - 1 <==>
              Bytes(blockSize, lba) + size <= Bytes(blockSize, blocks)
    ensures Bytes(blockSize, lba) + size <= Bytes(blockSize, blocks) ==> lba < blocks
    ensures Quotient(size, blockSize) > 0
  {
  }

  lemma NoBlockWrap(blockSize: nat, blocks: nat, lba: nat, size: nat)
    requires blockSize > 0 && lba < blocks && Bytes(blockSize, blocks) + size <= UINT64_RANGE
    ensures lba + Quotient(size, blockSize) < UINT64_RANGE
  {
  }

  /** There are at least as many bytes as blocks. */
  lemma MoreBytes(blockSize: nat, n: nat)
    requires 0 < blockSize
    ensures n <= blockSize * n
  {
  }

  ghost predicate IsTimes(n: nat, k: nat, chunk: nat) {
    n == k * chunk
  }

  /** One piece more. */
  lemma OneMoreTime(n: nat, k: nat, chunk: nat)
    ensures IsTimes(0, 0, chunk)
    ensures IsTimes(n, k, chunk) ==> IsTimes(n + chunk, k + 1, chunk)
  {
  }

  class BlockDevice {
    const MediaId: nat
    const ReadOnly: bool
    const BlockSize: nat
    /** Media->LastBlock + 1 */
    const Blocks: nat
    /** the memory from StartingAddr on */
    const Store: array<Byte>

    constructor (mediaId: nat, readOnly: bool, blockSize: nat, blocks: nat, store: array<Byte>)
      requires 0 < blockSize && blockSize * DATA_BUFFER_BLOCK_NUM < UINT32_RANGE && 0 < blocks
      requires store.Length == Bytes(blockSize, blocks)
      ensures Valid() && MediaId == mediaId && ReadOnly == readOnly && BlockSize == blockSize
      ensures Blocks == blocks && Store == store
    {
      MediaId, ReadOnly, BlockSize, Blocks, Store := mediaId, readOnly, blockSize, blocks, store;
    }

    /** The device is a whole number of blocks, and 64 of them can be counted in 32 bits. */
    ghost predicate Valid() {
      && 0 < BlockSize && BlockSize * DATA_BUFFER_BLOCK_NUM < UINT32_RANGE
      && 0 < Blocks && Store.Length == Bytes(BlockSize, Blocks)
    }

    /** The device and a buffer of `n` bytes are in one 64-bit address space. */
    ghost predicate Fits(n: nat) {
      Store.Length + n <= UINT64_RANGE
    }

    /** The status of a block transfer. */
    ghost function BlocksStatus(write: bool, mediaId: nat, lba: nat, size: nat, hasBuffer: bool): Status
      requires Valid()
    {
      if mediaId != MediaId then EFI_MEDIA_CHANGED
      else if write && ReadOnly then EFI_WRITE_PROTECTED
      else if !hasBuffer then EFI_INVALID_PARAMETER
      else if size == 0 then EFI_SUCCESS
      else if Remainder(size, BlockSize) != 0 then EFI_BAD_BUFFER_SIZE
      else if Bytes(BlockSize, lba) + size <= Store.Length then EFI_SUCCESS
      else EFI_INVALID_PARAMETER
    }

    /** The range checks of ReadBlocks and WriteBlocks. */
    method CheckBlocks(lba: nat, size: nat) returns (status: Status)
      requires Valid() && Fits(size) && lba < UINT64_RANGE && 0 < size
      ensures status == if Remainder(size, BlockSize) != 0 then EFI_BAD_BUFFER_SIZE
                        else if Bytes(BlockSize, lba) + size <= Store.Length then EFI_SUCCESS else EFI_INVALID_PARAMETER
    {
      if Remainder(size, BlockSize) != 0 { return EFI_BAD_BUFFER_SIZE; }
      BlocksInBytes(BlockSize, Blocks, lba, size);
      var lastBlock := Blocks - 1;
      if lba > lastBlock { return EFI_INVALID_PARAMETER; }
      var numberOfBlocks := Quotient(size, BlockSize);
      NoBlockWrap(BlockSize, Blocks, lba, size);
      if (lba + numberOfBlocks - 1) % UINT64_RANGE > lastBlock { return EFI_INVALID_PARAMETER; }
      return EFI_SUCCESS;
    }

    /** ReadBlocks into `buffer` from index `at` on. */
    method ReadBlocks(mediaId: nat, lba: nat, size: nat, buffer: array?<Byte>, at: nat) returns (status: Status)
      requires Valid() && lba < UINT64_RANGE && Fits(size)
      requires buffer != null ==> buffer != Store && at + size <= buffer.Length
      modifies buffer
      ensures status == BlocksStatus(false, mediaId, lba, size, buffer != null)
      ensures buffer != null && status == EFI_SUCCESS && size > 0 ==>
                buffer[..] == Overlay(old(buffer[..]), at, Store[Bytes(BlockSize, lba)..Bytes(BlockSize, lba) + size])
      ensures buffer != null && !(status == EFI_SUCCESS && size > 0) ==> buffer[..] == old(buffer[..])
    {
      if mediaId != MediaId { return EFI_MEDIA_CHANGED; }
      if buffer == null { return EFI_INVALID_PARAMETER; }
      if size == 0 { return EFI_SUCCESS; }
      status := CheckBlocks(lba, size);
      if status != EFI_SUCCESS { return; }
      CopyMem(buffer, at, Store, Bytes(BlockSize, lba), size);
    }

    /** WriteBlocks from `buffer`, index `at` on. */
    method WriteBlocks(mediaId: nat, lba: nat, size: nat, buffer: array?<Byte>, at: nat) returns (status: Status)
      requires Valid() && lba < UINT64_RANGE && Fits(size)
      requires buffer != null ==> buffer != Store && at + size <= buffer.Length
      modifies Store
      ensures status == BlocksStatus(true, mediaId, lba, size, buffer != null)
      ensures status == EFI_SUCCESS && size > 0 ==>
                Store[..] == Overlay(old(Store[..]), Bytes(BlockSize, lba), buffer[at..at + size])
      ensures !(status == EFI_SUCCESS && size > 0) ==> Store[..] == old(Store[..])
    {
      if mediaId != MediaId { return EFI_MEDIA_CHANGED; }
      if ReadOnly { return EFI_WRITE_PROTECTED; }
      if buffer == null { return EFI_INVALID_PARAMETER; }
      if size == 0 { return EFI_SUCCESS; }
      status := CheckBlocks(lba, size);
      if status != EFI_SUCCESS { return; }
      CopyMem(Store, Bytes(BlockSize, lba), buffer, at, size);
    }

    // ---------- bytes ----------

    /** A byte range can be transferred if it lies on the device.  An empty one still has the block
        looked at that its offset points into. */
    ghost predicate OnDevice(offset: nat, size: nat) {
      if size > 0 then offset + size <= Store.Length
      else BlockSize > 0 && (Remainder(offset, BlockSize) == 0 || offset < Store.Length)
    }

    /** How many bytes of a run of whole blocks are through when the device refuses the rest: none if the
        run went in one piece, and else a number of pieces of 64 blocks, of which the next one is refused. */
    ghost predicate Stopped(start: nat, whole: nat, aligned: bool, n: nat) {
      if aligned then n == 0
      else
        && n <= whole && (exists k: nat :: IsTimes(n, k, BlockSize * 64)) && (n > 0 ==> start + n <= Store.Length)
        && start + n + (if whole - n < BlockSize * 64 then whole - n else BlockSize * 64) > Store.Length
    }

    /** The same from a block boundary on: all whole blocks, if it is the last block that is refused. */
    ghost predicate StoppedFromBlock(start: nat, size: nat, aligned: bool, n: nat)
      requires BlockSize > 0
    {
      var whole := size - Remainder(size, BlockSize);
      if whole <= 0 then n == 0
      else if start + whole <= Store.Length then n == whole
      else Stopped(start, whole, aligned, n)
    }

    /** The same from anywhere: the part of the first block goes first. */
    ghost predicate StoppedAt(offset: nat, size: nat, aligned: bool, n: nat)
      requires BlockSize > 0
    {
      var under := Remainder(offset, BlockSize);
      var head := if under == 0 then 0 else if BlockSize - under < size then BlockSize - under else size;
      if under != 0 && offset >= Store.Length then n == 0
      else n >= head && StoppedFromBlock(offset + head, size - head, aligned, n - head)
    }

    /** `buffer` with `n` bytes at `at` read from the device at `offset`. */
    ghost function ReadInto(buffer: seq<Byte>, at: nat, offset: nat, n: nat): seq<Byte>
      requires n > 0 ==> at + n <= |buffer| && offset + n <= Store.Length
      reads Store
    {
      if n == 0 then buffer else Overlay(buffer, at, Store[offset..offset + n])
    }

    /** Reading on. */
    lemma ReadMore(buffer: seq<Byte>, at: nat, offset: nat, m: nat, n: nat)
      requires at + m + n <= |buffer| && (m + n > 0 ==> offset + m + n <= Store.Length)
      ensures ReadInto(ReadInto(buffer, at, offset, m), at + m, offset + m, n) == ReadInto(buffer, at, offset, m + n)
    {
      hide Overlay;
      if m > 0 && n > 0 {
        SlicesJoin(Store[..], offset, m, n);
        OverlayJoins(buffer, at, Store[offset..offset + m], Store[offset + m..offset + m + n]);
      }
    }

    /** Part of a block, read by way of a work buffer that held `dirt`. */
    lemma BlockRead(buffer: seq<Byte>, dirt: seq<Byte>, start: nat, under: nat, n: nat)
      requires under + n <= BlockSize <= |dirt| && n <= |buffer| && start + BlockSize <= Store.Length
      ensures Overlay(buffer, 0, Overlay(dirt, 0, Store[start..start + BlockSize])[under..under + n]) ==
                ReadInto(buffer, 0, start + under, n)
    {
      OverlaySlice(dirt, Store[..], start, BlockSize, under, n);
      if n == 0 { OverlayNothing(buffer, 0); }
    }

    /** Bytes read by way of a work buffer. */
    lemma Bounced(buffer: seq<Byte>, at: nat, dirt: seq<Byte>, start: nat, size: nat, n: nat)
      requires n <= size <= |dirt| && at + n <= |buffer| && start + size <= Store.Length
      ensures Overlay(buffer, at, Overlay(dirt, 0, Store[start..start + size])[..n]) == ReadInto(buffer, at, start, n)
    {
      OverlaySlice(dirt, Store[..], start, size, 0, n);
      if n == 0 { OverlayNothing(buffer, at); }
    }

    lemma ReadNothing(buffer: seq<Byte>, at: nat, offset: nat)
      ensures ReadInto(buffer, at, offset, 0) == buffer
    {
    }

    lemma ReadIs(buffer: seq<Byte>, at: nat, offset: nat, n: nat)
      requires n > 0 && at + n <= |buffer| && offset + n <= Store.Length
      ensures ReadInto(buffer, at, offset, n) == Overlay(buffer, at, Store[offset..offset + n])
    {
    }

    /** The run of whole blocks: directly if the buffer is aligned, else bounced through `data`, 64 blocks
        at a time.  `n` is the number of bytes read. */
    method ReadWhole(mediaId: nat, lba: nat, size: nat, buffer: array<Byte>, at: nat, aligned: bool, data: array<Byte>)
      returns (status: Status, ghost n: nat)
      requires Valid() && mediaId == MediaId && lba < UINT64_RANGE && 0 < size && Remainder(size, BlockSize) == 0
      requires data.Length == BlockSize * DATA_BUFFER_BLOCK_NUM && at + size <= buffer.Length
      requires buffer != Store && data != Store && data != buffer && Fits(buffer.Length + data.Length)
      modifies buffer, data
      ensures status == if Bytes(BlockSize, lba) + size <= Store.Length then EFI_SUCCESS else EFI_INVALID_PARAMETER
      ensures n <= size && (n > 0 ==> Bytes(BlockSize, lba) + n <= Store.Length)
      ensures if status == EFI_SUCCESS then n == size else Stopped(Bytes(BlockSize, lba), size, aligned, n)
      ensures buffer[..] == ReadInto(old(buffer[..]), at, Bytes(BlockSize, lba), n)
    {
      hide Overlay, ReadInto, Bytes, Quotient, Remainder, IsTimes;
      ReadNothing(buffer[..], at, Bytes(BlockSize, lba));
      n := 0;
      ghost var k: nat := 0;
      OneMoreTime(0, 0, BlockSize * 64);
      if aligned {
        status := ReadBlocks(mediaId, lba, size, buffer, at);
        if status == EFI_SUCCESS {
          ReadIs(old(buffer[..]), at, Bytes(BlockSize, lba), size);
          n := size;
        }
        return;
      }
      var next: nat, left, to, chunk, lastRead := lba, size, at, data.Length, false;
      while !lastRead
        invariant n + left == size && to == at + n && (!lastRead ==> IsTimes(n, k, BlockSize * 64))
        invariant !lastRead ==> left > 0 && chunk == data.Length && Remainder(left, BlockSize) == 0
        invariant !lastRead ==> next < UINT64_RANGE && Bytes(BlockSize, next) == Bytes(BlockSize, lba) + n
        invariant lastRead ==> left == 0
        invariant n > 0 ==> Bytes(BlockSize, lba) + n <= Store.Length
        invariant buffer[..] == ReadInto(old(buffer[..]), at, Bytes(BlockSize, lba), n)
        decreases left
      {
        if left <= chunk {
          chunk := left;
          lastRead := true;
        }
        ChunkOfBlocks(BlockSize, left);
        ghost var dirt := data[..];
        status := ReadBlocks(mediaId, next, chunk, data, 0);
        if status != EFI_SUCCESS { return; }
        Bounced(buffer[..], to, dirt, Bytes(BlockSize, next), chunk, chunk);
        ReadMore(old(buffer[..]), at, Bytes(BlockSize, lba), n, chunk);
        CopyMem(buffer, to, data, 0, chunk);
        if !lastRead { NextChunk(BlockSize, Blocks, next); }
        OneMoreTime(n, k, BlockSize * 64);
        k := k + 1;
        left, to, n, next := left - chunk, to + chunk, n + chunk, (next + DATA_BUFFER_BLOCK_NUM) % UINT64_RANGE;
      }
      status := EFI_SUCCESS;
    }

    /** From a block boundary on: whole blocks, then the start of a last block. */
    method ReadFromBlock(mediaId: nat, lba: nat, size: nat, buffer: array<Byte>, at: nat, aligned: bool,
                         data: array<Byte>)
      returns (status: Status, ghost n: nat)
      requires Valid() && mediaId == MediaId && lba < UINT64_RANGE && (BlockSize > 1 ==> lba <= UINT64_RANGE / 2)
      requires data.Length == BlockSize * DATA_BUFFER_BLOCK_NUM && at + size <= buffer.Length
      requires buffer != Store && data != Store && data != buffer && Fits(buffer.Length + data.Length)
      modifies buffer, data
      ensures status == if size == 0 || Bytes(BlockSize, lba) + size <= Store.Length then EFI_SUCCESS
                else EFI_INVALID_PARAMETER
      ensures n <= size && (n > 0 ==> Bytes(BlockSize, lba) + n <= Store.Length)
      ensures if status == EFI_SUCCESS then n == size else StoppedFromBlock(Bytes(BlockSize, lba), size, aligned, n)
      ensures buffer[..] == ReadInto(old(buffer[..]), at, Bytes(BlockSize, lba), n)
    {
      hide Overlay, ReadInto, Bytes, Quotient, Remainder, Stopped;
      ReadNothing(buffer[..], at, Bytes(BlockSize, lba));
      OneBlock(BlockSize);
      status, n := EFI_SUCCESS, 0;
      var overRun := Remainder(size, BlockSize);
      var overRunLba := (lba + Quotient(size, BlockSize)) % UINT64_RANGE;
      OverRunBlock(BlockSize, lba, size);
      var to := at;
      if size >= BlockSize {
        var whole := if overRun != 0 then size - overRun else size;
        status, n := ReadWhole(mediaId, lba, whole, buffer, at, aligned, data);
        if status != EFI_SUCCESS { return; }
        to := to + whole;
      }
      if overRun != 0 {
        LastBlockWhole(BlockSize, Blocks, overRunLba, overRun);
        ghost var dirt := data[..];
        status := ReadBlocks(mediaId, overRunLba, BlockSize, data, 0);
        if status != EFI_SUCCESS { return; }
        Bounced(buffer[..], to, dirt, Bytes(BlockSize, overRunLba), BlockSize, overRun);
        ReadMore(old(buffer[..]), at, Bytes(BlockSize, lba), n, overRun);
        CopyMem(buffer, to, data, 0, overRun);
        n := n + overRun;
      }
    }

    /** ReadDisk.  `aligned` says whether the buffer satisfies IoAlign where the whole blocks go, `granted`
        whether there is memory for the work buffer; `n` is the number of bytes read. */
    method ReadDisk(mediaId: nat, offset: nat, size: nat, buffer: array<Byte>, aligned: bool, granted: bool)
      returns (status: Status, ghost n: nat)
      requires Valid() && offset < UINT64_RANGE && size <= buffer.Length
      requires buffer != Store && Fits(buffer.Length + BlockSize * DATA_BUFFER_BLOCK_NUM)
      modifies buffer
      ensures status == if mediaId != MediaId then EFI_MEDIA_CHANGED
                        else if !granted then EFI_OUT_OF_RESOURCES
                        else if OnDevice(offset, size) then EFI_SUCCESS else EFI_INVALID_PARAMETER
      ensures n <= size && (n > 0 ==> offset + n <= Store.Length)
      ensures match status
              case EFI_SUCCESS => n == size
              case EFI_INVALID_PARAMETER => StoppedAt(offset, size, aligned, n)
              case _ => n == 0
      ensures buffer[..] == ReadInto(old(buffer[..]), 0, offset, n)
    {
      hide Overlay, ReadInto, Bytes, Quotient, Remainder, StoppedFromBlock;
      ReadNothing(buffer[..], 0, offset);
      OneBlock(BlockSize);
      n := 0;
      if mediaId != MediaId { return EFI_MEDIA_CHANGED, 0; }
      if !granted { return EFI_OUT_OF_RESOURCES, 0; }
      var data := new Byte[BlockSize * DATA_BUFFER_BLOCK_NUM];
      var lba: nat, underRun: nat := Quotient(offset, BlockSize), Remainder(offset, BlockSize);
      BlockOfOffset(BlockSize, Blocks, offset);
      var at, left := 0, size;
      if underRun != 0 {
        ghost var dirt := data[..];
        status := ReadBlocks(mediaId, lba, BlockSize, data, 0);
        if status != EFI_SUCCESS { return; }
        var length: nat := BlockSize - underRun;
        if length > size { length := size; }
        BlockRead(buffer[..], dirt, Bytes(BlockSize, lba), underRun, length);
        CopyMem(buffer, 0, data, underRun, length);
        n := length;
        at, left := at + length, left - length;
        if left == 0 { return; }
        lba := lba + 1;
      }
      ghost var m;
      status, m := ReadFromBlock(mediaId, lba, left, buffer, at, aligned, data);
      ReadMore(old(buffer[..]), 0, offset, n, m);
      n := n + m;
    }

    // ---------- writing ----------

    /** `store` with `n` bytes of `buffer`, from index `at` on, written at `offset`. */
    ghost function Written(store: seq<Byte>, offset: nat, buffer: seq<Byte>, at: nat, n: nat): seq<Byte>
      requires n > 0 ==> at + n <= |buffer| && offset + n <= |store|
    {
      if n == 0 then store else Overlay(store, offset, buffer[at..at + n])
    }

    lemma WriteNothing(store: seq<Byte>, offset: nat, buffer: seq<Byte>, at: nat)
      ensures Written(store, offset, buffer, at, 0) == store
    {
    }

    lemma WriteIs(store: seq<Byte>, offset: nat, buffer: seq<Byte>, at: nat, n: nat)
      requires n > 0 && at + n <= |buffer| && offset + n <= |store|
      ensures Written(store, offset, buffer, at, n) == Overlay(store, offset, buffer[at..at + n])
      ensures |Written(store, offset, buffer, at, n)| == |store|
    {
    }

    /** Writing on. */
    lemma WriteMore(store: seq<Byte>, offset: nat, buffer: seq<Byte>, at: nat, m: nat, n: nat)
      requires at + m + n <= |buffer| && (m + n > 0 ==> offset + m + n <= |store|)
      ensures Written(Written(store, offset, buffer, at, m), offset + m, buffer, at + m, n) ==
                Written(store, offset, buffer, at, m + n)
    {
      hide Overlay;
      if m > 0 && n > 0 {
        SlicesJoin(buffer, at, m, n);
        OverlayJoins(store, offset, buffer[at..at + m], buffer[at + m..at + m + n]);
      }
    }

    /** Bytes written by way of a work buffer. */
    lemma BouncedOut(store: seq<Byte>, start: nat, dirt: seq<Byte>, buffer: seq<Byte>, at: nat, n: nat)
      requires 0 < n <= |dirt| && at + n <= |buffer| && start + n <= |store|
      ensures Overlay(store, start, Overlay(dirt, 0, buffer[at..at + n])[0..n]) == Written(store, start, buffer, at, n)
    {
      assert Overlay(dirt, 0, buffer[at..at + n])[0..n] == buffer[at..at + n];
    }

    /** Reading a block, changing some bytes of it and writing it back. */
    lemma Rewritten(store: seq<Byte>, start: nat, dirt: seq<Byte>, under: nat, buffer: seq<Byte>, at: nat, n: nat)
      requires under + n <= BlockSize <= |dirt| && at + n <= |buffer| && start + BlockSize <= |store|
      ensures Overlay(store, start,
                      Overlay(Overlay(dirt, 0, store[start..start + BlockSize]), under,
                              buffer[at..at + n])[0..BlockSize])
              == Written(store, start + under, buffer, at, n)
    {
      OverlayWithin(store, start, dirt, under, buffer[at..at + n], BlockSize);
      if n == 0 { OverlayNothing(store, start + under); }
    }

    /** The read-modify-write of part of a block. */
    method RewriteBlock(mediaId: nat, lba: nat, under: nat, buffer: array<Byte>, at: nat, n: nat, data: array<Byte>)
      returns (status: Status)
      requires Valid() && mediaId == MediaId && !ReadOnly && lba < UINT64_RANGE
      requires under + n <= BlockSize <= data.Length && at + n <= buffer.Length
      requires buffer != Store && data != Store && data != buffer && Fits(data.Length)
      modifies Store, data
      ensures status == if Bytes(BlockSize, lba) + BlockSize <= Store.Length then EFI_SUCCESS else EFI_INVALID_PARAMETER
      ensures status == EFI_SUCCESS ==>
                Store[..] == Written(old(Store[..]), Bytes(BlockSize, lba) + under, buffer[..], at, n)
      ensures status != EFI_SUCCESS ==> Store[..] == old(Store[..])
    {
      hide Overlay, Written, Bytes, Quotient, Remainder;
      OneBlock(BlockSize);
      ghost var dirt := data[..];
      status := ReadBlocks(mediaId, lba, BlockSize, data, 0);
      if status != EFI_SUCCESS { return; }
      Rewritten(Store[..], Bytes(BlockSize, lba), dirt, under, buffer[..], at, n);
      CopyMem(data, under, buffer, at, n);
      status := WriteBlocks(mediaId, lba, BlockSize, data, 0);
    }

    /** The run of whole blocks: directly if the buffer is aligned, else bounced through `data`, 64 blocks
        at a time.  `n` is the number of bytes written. */
    method WriteWhole(mediaId: nat, lba: nat, size: nat, buffer: array<Byte>, at: nat, aligned: bool, data: array<Byte>)
      returns (status: Status, ghost n: nat)
      requires Valid() && mediaId == MediaId && !ReadOnly && lba < UINT64_RANGE && 0 < size
      requires Remainder(size, BlockSize) == 0
      requires data.Length == BlockSize * DATA_BUFFER_BLOCK_NUM && at + size <= buffer.Length
      requires buffer != Store && data != Store && data != buffer && Fits(buffer.Length + data.Length)
      modifies Store, data
      ensures status == if Bytes(BlockSize, lba) + size <= Store.Length then EFI_SUCCESS else EFI_INVALID_PARAMETER
      ensures n <= size && (n > 0 ==> Bytes(BlockSize, lba) + n <= Store.Length)
      ensures if status == EFI_SUCCESS then n == size else Stopped(Bytes(BlockSize, lba), size, aligned, n)
      ensures Store[..] == Written(old(Store[..]), Bytes(BlockSize, lba), buffer[..], at, n)
    {
      hide Overlay, Written, Bytes, Quotient, Remainder, IsTimes;
      WriteNothing(Store[..], Bytes(BlockSize, lba), buffer[..], at);
      n := 0;
      ghost var k: nat := 0;
      OneMoreTime(0, 0, BlockSize * 64);
      if aligned {
        status := WriteBlocks(mediaId, lba, size, buffer, at);
        if status == EFI_SUCCESS {
          WriteIs(old(Store[..]), Bytes(BlockSize, lba), buffer[..], at, size);
          n := size;
        }
        return;
      }
      var next: nat, left, from, chunk, lastWrite := lba, size, at, data.Length, false;
      while !lastWrite
        invariant n + left == size && from == at + n && (!lastWrite ==> IsTimes(n, k, BlockSize * 64))
        invariant !lastWrite ==> left > 0 && chunk == data.Length && Remainder(left, BlockSize) == 0
        invariant !lastWrite ==> next < UINT64_RANGE && Bytes(BlockSize, next) == Bytes(BlockSize, lba) + n
        invariant lastWrite ==> left == 0
        invariant n > 0 ==> Bytes(BlockSize, lba) + n <= Store.Length
        invariant Store[..] == Written(old(Store[..]), Bytes(BlockSize, lba), buffer[..], at, n)
        decreases left
      {
        if left <= chunk {
          chunk := left;
          lastWrite := true;
        }
        ChunkOfBlocks(BlockSize, left);
        ghost var store, dirt := Store[..], data[..];
        CopyMem(data, 0, buffer, from, chunk);
        status := WriteBlocks(mediaId, next, chunk, data, 0);
        if status != EFI_SUCCESS { return; }
        BouncedOut(store, Bytes(BlockSize, next), dirt, buffer[..], from, chunk);
        WriteMore(old(Store[..]), Bytes(BlockSize, lba), buffer[..], at, n, chunk);
        if !lastWrite { NextChunk(BlockSize, Blocks, next); }
        OneMoreTime(n, k, BlockSize * 64);
        k := k + 1;
        left, from, n, next := left - chunk, from + chunk, n + chunk, (next + DATA_BUFFER_BLOCK_NUM) % UINT64_RANGE;
      }
      status := EFI_SUCCESS;
    }

    /** From a block boundary on: whole blocks, then the start of a last block. */
    method WriteFromBlock(mediaId: nat, lba: nat, size: nat, buffer: array<Byte>, at: nat, aligned: bool,
                          data: array<Byte>)
      returns (status: Status, ghost n: nat)
      requires Valid() && mediaId == MediaId && !ReadOnly && lba < UINT64_RANGE
      requires BlockSize > 1 ==> lba <= UINT64_RANGE / 2
      requires data.Length == BlockSize * DATA_BUFFER_BLOCK_NUM && at + size <= buffer.Length
      requires buffer != Store && data != Store && data != buffer && Fits(buffer.Length + data.Length)
      modifies Store, data
      ensures status == if size == 0 || Bytes(BlockSize, lba) + size <= Store.Length then EFI_SUCCESS
                else EFI_INVALID_PARAMETER
      ensures n <= size && (n > 0 ==> Bytes(BlockSize, lba) + n <= Store.Length)
      ensures if status == EFI_SUCCESS then n == size else StoppedFromBlock(Bytes(BlockSize, lba), size, aligned, n)
      ensures Store[..] == Written(old(Store[..]), Bytes(BlockSize, lba), buffer[..], at, n)
    {
      hide Overlay, Written, Bytes, Quotient, Remainder, Stopped;
      WriteNothing(Store[..], Bytes(BlockSize, lba), buffer[..], at);
      status, n := EFI_SUCCESS, 0;
      var overRun := Remainder(size, BlockSize);
      var overRunLba := (lba + Quotient(size, BlockSize)) % UINT64_RANGE;
      OverRunBlock(BlockSize, lba, size);
      var from := at;
      if size >= BlockSize {
        var whole := if overRun != 0 then size - overRun else size;
        status, n := WriteWhole(mediaId, lba, whole, buffer, at, aligned, data);
        if status != EFI_SUCCESS { return; }
        from := from + whole;
      }
      if overRun != 0 {
        LastBlockWhole(BlockSize, Blocks, overRunLba, overRun);
        status := RewriteBlock(mediaId, overRunLba, 0, buffer, from, overRun, data);
        if status != EFI_SUCCESS { return; }
        WriteMore(old(Store[..]), Bytes(BlockSize, lba), buffer[..], at, n, overRun);
        n := n + overRun;
      }
    }

    /** WriteDisk.  On success exactly the range is replaced; on an error a prefix of it is, of `n` bytes. */
    method WriteDisk(mediaId: nat, offset: nat, size: nat, buffer: array<Byte>, aligned: bool, granted: bool)
      returns (status: Status, ghost n: nat)
      requires Valid() && offset < UINT64_RANGE && size <= buffer.Length
      requires buffer != Store && Fits(buffer.Length + BlockSize * DATA_BUFFER_BLOCK_NUM)
      modifies Store
      ensures status == if ReadOnly then EFI_WRITE_PROTECTED
                        else if mediaId != MediaId then EFI_MEDIA_CHANGED
                        else if !granted then EFI_OUT_OF_RESOURCES
                        else if OnDevice(offset, size) then EFI_SUCCESS else EFI_INVALID_PARAMETER
      ensures n <= size && (n > 0 ==> offset + n <= Store.Length)
      ensures match status
              case EFI_SUCCESS => n == size
              case EFI_INVALID_PARAMETER => StoppedAt(offset, size, aligned, n)
              case _ => n == 0
      ensures Store[..] == Written(old(Store[..]), offset, buffer[..], 0, n)
    {
      hide Overlay, Written, Bytes, Quotient, Remainder, StoppedFromBlock;
      WriteNothing(Store[..], offset, buffer[..], 0);
      n := 0;
      if ReadOnly { return EFI_WRITE_PROTECTED, 0; }
      if mediaId != MediaId { return EFI_MEDIA_CHANGED, 0; }
      if !granted { return EFI_OUT_OF_RESOURCES, 0; }
      var data := new Byte[BlockSize * DATA_BUFFER_BLOCK_NUM];
      var lba: nat, underRun: nat := Quotient(offset, BlockSize), Remainder(offset, BlockSize);
      BlockOfOffset(BlockSize, Blocks, offset);
      var at, left := 0, size;
      if underRun != 0 {
        var length: nat := BlockSize - underRun;
        if length > size { length := size; }
        status := RewriteBlock(mediaId, lba, underRun, buffer, 0, length, data);
        if status != EFI_SUCCESS { return; }
        n := length;
        at, left := at + length, left - length;
        if left == 0 { return; }
        lba := lba + 1;
      }
      ghost var m;
      status, m := WriteFromBlock(mediaId, lba, left, buffer, at, aligned, data);
      WriteMore(old(Store[..]), offset, buffer[..], 0, n, m);
      n := n + m;
    }
  }

  lemma OneBlock(blockSize: nat)
    requires blockSize > 0
    ensures Remainder(blockSize, blockSize) == 0
  {
  }

  /** Cutting a run of blocks into chunks of 64 leaves runs of blocks. */
  lemma ChunkOfBlocks(blockSize: nat, size: nat)
    requires blockSize > 0 && Remainder(size, blockSize) == 0
    ensures Remainder(blockSize * DATA_BUFFER_BLOCK_NUM, blockSize) == 0
    ensures size > blockSize * DATA_BUFFER_BLOCK_NUM ==>
              Remainder(size - blockSize * DATA_BUFFER_BLOCK_NUM, blockSize) == 0
  {
    var n := Quotient(size, blockSize);
    assert size == blockSize * n;
    DivisionUnique(blockSize * DATA_BUFFER_BLOCK_NUM, blockSize, DATA_BUFFER_BLOCK_NUM, 0);
    if size > blockSize * DATA_BUFFER_BLOCK_NUM {
      assert size - blockSize * DATA_BUFFER_BLOCK_NUM == blockSize * (n - DATA_BUFFER_BLOCK_NUM);
      DivisionUnique(size - blockSize * DATA_BUFFER_BLOCK_NUM, blockSize, n - DATA_BUFFER_BLOCK_NUM, 0);
    }
  }

  lemma NextChunk(blockSize: nat, blocks: nat, lba: nat)
    requires blockSize > 0
    requires Bytes(blockSize, lba) + blockSize * DATA_BUFFER_BLOCK_NUM <= Bytes(blockSize, blocks) < UINT64_RANGE
    ensures lba + DATA_BUFFER_BLOCK_NUM < UINT64_RANGE
    ensures Bytes(blockSize, lba + DATA_BUFFER_BLOCK_NUM) == Bytes(blockSize, lba) + blockSize * DATA_BUFFER_BLOCK_NUM
  {
  }

  /** The block a range from block `lba` on ends in the middle of. */
  lemma OverRunBlock(blockSize: nat, lba: nat, size: nat)
    requires blockSize > 0 && lba < UINT64_RANGE && size < UINT64_RANGE && (blockSize > 1 ==> lba <= UINT64_RANGE / 2)
    ensures Remainder(size, blockSize) != 0 ==> lba + Quotient(size, blockSize) < UINT64_RANGE
    ensures Bytes(blockSize, lba + Quotient(size, blockSize)) ==
              Bytes(blockSize, lba) + size - Remainder(size, blockSize)
    ensures size >= blockSize ==> size - Remainder(size, blockSize) > 0
    ensures size < blockSize ==> Remainder(size, blockSize) == size
    ensures Remainder(size - Remainder(size, blockSize), blockSize) == 0
  {
    var n := Quotient(size, blockSize);
    assert size == blockSize * n + Remainder(size, blockSize);
    DivisionUnique(size - Remainder(size, blockSize), blockSize, n, 0);
    if blockSize > 1 { TwiceAtMost(blockSize, n); }
    if size < blockSize { DivisionUnique(size, blockSize, 0, size); }
  }

  lemma TwiceAtMost(blockSize: nat, n: nat)
    requires blockSize > 1
    ensures 2 * n <= blockSize * n
  {
  }

  /** A device of whole blocks holds the start of a block exactly if it holds the block. */
  lemma LastBlockWhole(blockSize: nat, blocks: nat, lba: nat, part: nat)
    requires 0 < part < blockSize
    ensures Bytes(blockSize, lba) + part <= Bytes(blockSize, blocks) <==>
              Bytes(blockSize, lba) + blockSize <= Bytes(blockSize, blocks)
  {
    StepOver(blockSize, lba, blocks);
    StepOver(blockSize, blocks, lba);
  }

  lemma BlockOfOffset(blockSize: nat, blocks: nat, offset: nat)
    requires blockSize > 0 && offset < UINT64_RANGE
    ensures var lba: nat, underRun: nat := Quotient(offset, blockSize), Remainder(offset, blockSize);
            && offset == Bytes(blockSize, lba) + underRun
            && Bytes(blockSize, lba + 1) == Bytes(blockSize, lba) + blockSize
            && lba <= offset && (underRun != 0 ==> lba + 1 <= UINT64_RANGE / 2)
            && (blockSize > 1 ==> lba <= UINT64_RANGE / 2)
            && (offset < Bytes(blockSize, blocks) <==> Bytes(blockSize, lba) + blockSize <= Bytes(blockSize, blocks))
  {
    var lba := Quotient(offset, blockSize);
    MoreBytes(blockSize, lba);
    if blockSize > 1 { TwiceAtMost(blockSize, lba); }
    StepOver(blockSize, lba, blocks);
    StepOver(blockSize, blocks, lba);
  }

  /** WriteDisk and a later ReadDisk, of any two ranges, with any alignment of either buffer: both succeed
      exactly if media, write protection, memory and the ranges allow it, and then every byte read is the
      one written there, or the one that was there before. */
  method WriteThenRead(device: BlockDevice, mediaId: nat,
                       offset: nat, size: nat, data: array<Byte>, alignedOut: bool, grantedOut: bool,
                       from: nat, n: nat, buffer: array<Byte>, alignedIn: bool, grantedIn: bool)
    returns (wrote: Status, read: Status)
    requires device.Valid() && offset < UINT64_RANGE && from < UINT64_RANGE && size <= data.Length && n <= buffer.Length
    requires data != device.Store && buffer != device.Store
    requires device.Fits(data.Length + device.BlockSize * DATA_BUFFER_BLOCK_NUM)
    requires device.Fits(buffer.Length + device.BlockSize * DATA_BUFFER_BLOCK_NUM)
    modifies device.Store, buffer
    ensures wrote == EFI_SUCCESS <==>
              !device.ReadOnly && mediaId == device.MediaId && grantedOut && device.OnDevice(offset, size)
    ensures read == EFI_SUCCESS <==> mediaId == device.MediaId && grantedIn && device.OnDevice(from, n)
    ensures wrote == EFI_SUCCESS && read == EFI_SUCCESS ==>
              && (forall i :: 0 <= i < n ==>
                    && from + i < device.Store.Length
                    && buffer[i] == ByteAfter(old(device.Store[..]), offset, old(data[..size]), from + i))
              && (forall i :: n <= i < buffer.Length ==> buffer[i] == old(buffer[i]))
  {
    hide Overlay, ByteAfter, Bytes, Quotient, Remainder;
    ghost var store, bytes, before := device.Store[..], data[..size], buffer[..];
    ghost var written, m;
    wrote, written := device.WriteDisk(mediaId, offset, size, data, alignedOut, grantedOut);
    read, m := device.ReadDisk(mediaId, from, n, buffer, alignedIn, grantedIn);
    if wrote == EFI_SUCCESS && read == EFI_SUCCESS && n > 0 {
      if size > 0 {
        ReadAfterWrite(store, offset, bytes, from, before, n);
      } else {
        NothingWritten(store, offset, bytes, from, before, n);
      }
    }
  }

  lemma NothingWritten(store: seq<Byte>, offset: nat, data: seq<Byte>, from: nat, buffer: seq<Byte>, n: nat)
    requires data == [] && from + n <= |store| && n <= |buffer|
    ensures var seen := Overlay(buffer, 0, store[from..from + n]);
            && (forall i :: 0 <= i < n ==> seen[i] == ByteAfter(store, offset, data, from + i))
            && (forall i :: n <= i < |buffer| ==> seen[i] == buffer[i])
  {
  }
}

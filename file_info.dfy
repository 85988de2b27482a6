/** The lazy block reader (class FileInfo in main.cpp): a read cursor, an
    end-of-input flag and the append-only list of digests of the blocks read so
    far. Every request reads one more block from the cursor, unless the
    declared size has been reached, and then answers from the list. */
module FileReading {

  import opened Hash

  type Path = string

  /** The files the program can open, with their bytes. A path that is absent
      cannot be opened. */
  type Disk = map<Path, Bytes>

  /** What the engine consults outside itself: the disk and the digest algorithms. */
  datatype Env = Env(disk: Disk, algs: Algorithms)

  datatype Option<T> = None | Some(value: T)

  /** A file as the directory walk lists it: its path and the size it had then. */
  datatype Candidate = Candidate(path: Path, size: nat)

  /** The character '0' that fills the read buffer before every read. */
  const FILL: Byte := 0x30

  /** A reader's mutable state: whether the declared size has been reached, the
      read cursor, and the digests of the blocks read so far. */
  datatype ReadState = ReadState(complete: bool, pos: nat, blocks: seq<string>)

  /** The state of a reader that has not read anything yet. */
  const UNREAD: ReadState := ReadState(false, 0, [])

  function Min(a: int, b: int): int
  {
    if a <= b then a else b
  }

  /** The number of bytes a read of `blockSize` bytes at `pos` obtains from `content`. */
  function ReadCount(content: Bytes, pos: nat, blockSize: nat): (n: nat)
    ensures n <= blockSize
    ensures n == 0 || pos + n <= |content|
    ensures pos < |content| && pos + blockSize <= |content| ==> n == blockSize
  {
    if pos >= |content| then 0 else Min(blockSize, |content| - pos)
  }

  /** The buffer that gets hashed after a read at `pos`: a buffer of `blockSize`
      '0' characters with the bytes read copied over its start. */
  function ReadBuffer(content: Bytes, pos: nat, blockSize: nat): (buff: Bytes)
    ensures |buff| == blockSize
  {
    var n := ReadCount(content, pos, blockSize);
    var start := Min(pos, |content|);
    content[start..start + n] + seq(blockSize - n, _ => FILL)
  }

  /** Byte t of the buffer: byte pos + t of the file, or '0' past the end of
      the file. */
  lemma ReadBufferAt(content: Bytes, pos: nat, blockSize: nat, t: nat)
    requires t < blockSize
    ensures ReadBuffer(content, pos, blockSize)[t] == if pos + t < |content| then content[pos + t] else FILL
  {
    var n := ReadCount(content, pos, blockSize);
    var start := Min(pos, |content|);
    var read := content[start..start + n];
    if t < n {
      assert ReadBuffer(content, pos, blockSize)[t] == read[t];
    } else {
      assert ReadBuffer(content, pos, blockSize)[t] == seq(blockSize - n, _ => FILL)[t - n];
    }
  }

  /** Block `j` of `content` as it is hashed: the buffer of a read at
      j*blockSize, or at the end of a shorter file. */
  function Block(content: Bytes, j: nat, blockSize: nat): (b: Bytes)
    ensures |b| == blockSize
  {
    ReadBuffer(content, Min(j * blockSize, |content|), blockSize)
  }

  /** Byte t of block j is byte j*blockSize + t of the file, or '0' past its end. */
  lemma BlockAt(content: Bytes, j: nat, blockSize: nat, t: nat)
    requires t < blockSize
    ensures Block(content, j, blockSize)[t] ==
      if j * blockSize + t < |content| then content[j * blockSize + t] else FILL
  {
    var start := j * blockSize;
    ReadBufferAt(content, Min(start, |content|), blockSize, t);
  }

  function BlockDigest(env: Env, blockSize: nat, hashType: string, content: Bytes, j: nat): string
  {
    GetHash(env.algs, hashType, Block(content, j, blockSize))
  }

  /** The effect of one ReadByBlock call on the reader of `file`. */
  function ReadStep(env: Env, blockSize: nat, hashType: string, file: Candidate, st: ReadState): (next: ReadState)
    ensures st.complete || file.path !in env.disk ==> next == st
    ensures !st.complete && file.path in env.disk ==>
      && |next.blocks| == |st.blocks| + 1
      && next.blocks[..|st.blocks|] == st.blocks
      && st.pos <= next.pos <= st.pos + blockSize
      && next.complete == (next.pos >= file.size)
  {
    if st.complete then
      st
    else if file.path !in env.disk then
      st
    else
      var content := env.disk[file.path];
      var n := ReadCount(content, st.pos, blockSize);
      var digest := GetHash(env.algs, hashType, ReadBuffer(content, st.pos, blockSize));
      ReadState(st.pos + n >= file.size, st.pos + n, st.blocks + [digest])
  }

  /** The state after `k` ReadByBlock calls. */
  function ReadSteps(env: Env, blockSize: nat, hashType: string, file: Candidate, st: ReadState, k: nat): ReadState
  {
    if k == 0 then st
    else ReadStep(env, blockSize, hashType, file, ReadSteps(env, blockSize, hashType, file, st, k - 1))
  }

  /** The states a reader of `file` reaches when every read uses this block size
      and hash type: an unopenable file is never read; otherwise after k reads
      the cursor stands at k*blockSize (or at the end of the file), the reader
      is complete when the cursor has reached the declared size, and entry j of
      the list is the digest of block j. */
  ghost predicate Coherent(env: Env, blockSize: nat, hashType: string, file: Candidate, st: ReadState)
  {
    if file.path !in env.disk then
      st == UNREAD
    else
      var content := env.disk[file.path];
      var k := |st.blocks|;
      && st.pos == Min(k * blockSize, |content|)
      && st.complete == (k > 0 && st.pos >= file.size)
      && forall j :: 0 <= j < k ==> st.blocks[j] == BlockDigest(env, blockSize, hashType, content, j)
  }

  lemma UnreadIsCoherent(env: Env, blockSize: nat, hashType: string, file: Candidate)
    ensures Coherent(env, blockSize, hashType, file, UNREAD)
  {
  }

  /** Reading one more block keeps the memo faithful to the file. */
  lemma ReadStepCoherent(env: Env, blockSize: nat, hashType: string, file: Candidate, st: ReadState)
    requires Coherent(env, blockSize, hashType, file, st)
    ensures Coherent(env, blockSize, hashType, file, ReadStep(env, blockSize, hashType, file, st))
  {
    if !st.complete && file.path in env.disk {
      var content := env.disk[file.path];
      var k := |st.blocks|;
      var next := ReadStep(env, blockSize, hashType, file, st);
      assert (k + 1) * blockSize == k * blockSize + blockSize;
      assert next.pos == Min((k + 1) * blockSize, |content|);
      assert next.blocks[k] == BlockDigest(env, blockSize, hashType, content, k);
    }
  }

  lemma {:induction false} ReadStepsCoherent(env: Env, blockSize: nat, hashType: string, file: Candidate, st: ReadState, k: nat)
    requires Coherent(env, blockSize, hashType, file, st)
    ensures Coherent(env, blockSize, hashType, file, ReadSteps(env, blockSize, hashType, file, st, k))
  {
    if k > 0 {
      ReadStepsCoherent(env, blockSize, hashType, file, st, k - 1);
      ReadStepCoherent(env, blockSize, hashType, file, ReadSteps(env, blockSize, hashType, file, st, k - 1));
    }
  }

  /** The memo only grows, by at most one entry per read, and an entry once
      stored is returned unchanged by every later request: it is never recomputed. */
  lemma {:induction false} ReadStepsAppendOnly(env: Env, blockSize: nat, hashType: string, file: Candidate, st: ReadState, k: nat)
    ensures var after := ReadSteps(env, blockSize, hashType, file, st, k);
      && |st.blocks| <= |after.blocks| <= |st.blocks| + k
      && after.blocks[..|st.blocks|] == st.blocks
  {
    if k > 0 {
      ReadStepsAppendOnly(env, blockSize, hashType, file, st, k - 1);
      var mid := ReadSteps(env, blockSize, hashType, file, st, k - 1);
      var after := ReadStep(env, blockSize, hashType, file, mid);
      assert after.blocks[..|mid.blocks|] == mid.blocks;
      assert after.blocks[..|st.blocks|] == after.blocks[..|mid.blocks|][..|st.blocks|];
    }
  }

  /** An openable file read from the start stores exactly one digest per read
      until the read that reaches the declared size; a file shorter than
      declared never gets there and stores one digest on every read. */
  lemma {:induction false} FreshReaderReadsOncePerRequest(env: Env, blockSize: nat, hashType: string, file: Candidate, k: nat)
    requires file.path in env.disk
    requires blockSize > 0 && (k == 0 || (k - 1) * blockSize < file.size)
    ensures |ReadSteps(env, blockSize, hashType, file, UNREAD, k).blocks| == k
  {
    if k > 0 {
      assert (k - 1) * blockSize == (k - 2) * blockSize + blockSize;
      FreshReaderReadsOncePerRequest(env, blockSize, hashType, file, k - 1);
      UnreadIsCoherent(env, blockSize, hashType, file);
      ReadStepsCoherent(env, blockSize, hashType, file, UNREAD, k - 1);
    }
  }

  /** The guard of GetBlock as written at main.cpp:86: the request is declined
      only when the memo holds FEWER entries than the block number, so a block
      number equal to the memo's length goes on to the index at main.cpp:89. */
  predicate GuardAdmitsAsWritten(memoLength: nat, blockNumber: nat): (admits: bool)
    ensures admits <==> blockNumber <= memoLength
  {
    !(memoLength < blockNumber)
  }

  /** A file that cannot be opened stores no digest, so its first request,
      block 0, passes the guard as written and indexes an empty memo. */
  lemma UnopenableFilePassesGuardAsWritten(env: Env, blockSize: nat, hashType: string, file: Candidate)
    requires file.path !in env.disk
    ensures var st := ReadStep(env, blockSize, hashType, file, UNREAD);
      GuardAdmitsAsWritten(|st.blocks|, 0) && !(0 < |st.blocks|)
  {
  }

  class FileInfo {
    const fileName: Path
    const fileSize: nat
    var readComplete: bool
    var readPos: nat
    var hashBlocks: seq<string>

    function File(): Candidate
    {
      Candidate(fileName, fileSize)
    }

    function State(): ReadState
      reads this
    {
      ReadState(readComplete, readPos, hashBlocks)
    }

    constructor (fileName: Path, fileSize: nat)
      ensures this.fileName == fileName && this.fileSize == fileSize
      ensures State() == UNREAD
    {
      this.fileName := fileName;
      this.fileSize := fileSize;
      readComplete := false;
      readPos := 0;
      hashBlocks := [];
    }

    /** Reads the next block from the cursor and stores its digest, unless the
        declared size has been reached or the file cannot be opened. */
    method ReadByBlock(env: Env, blockSize: nat, hashType: string)
      modifies this
      ensures State() == ReadStep(env, blockSize, hashType, File(), old(State()))
    {
      if readComplete {
        return;
      }
      if fileName in env.disk {
        var content := env.disk[fileName];
        var buff := seq(blockSize, _ => FILL);
        var count := ReadCount(content, readPos, blockSize);
        var start := Min(readPos, |content|);
        buff := content[start..start + count] + buff[count..];
        assert buff == ReadBuffer(content, readPos, blockSize);
        readPos := readPos + count;
        if readPos >= fileSize {
          readComplete := true;
        }
        hashBlocks := hashBlocks + [GetHash(env.algs, hashType, buff)];
      }
    }

    /** Reads one more block, then answers the digest of block `blockNumber`
        from the memo, or None when the memo does not hold that block. */
    method GetBlock(env: Env, blockNumber: nat, blockSize: nat, hashType: string) returns (block: Option<string>)
      modifies this
      ensures State() == ReadStep(env, blockSize, hashType, File(), old(State()))
      ensures block == if blockNumber < |hashBlocks| then Some(hashBlocks[blockNumber]) else None
      ensures blockNumber < |old(hashBlocks)| ==> block == Some(old(hashBlocks)[blockNumber])
    {
      ReadByBlock(env, blockSize, hashType);
      if |hashBlocks| <= blockNumber {
        return None;
      }
      block := Some(hashBlocks[blockNumber]);
    }
  }
}

/** The pairwise comparator (class FilesMatcher in main.cpp): equal declared
    sizes, then the block digests of both files index by index, stopping at the
    first index where either digest is unavailable or the two differ. */
module Matching {

  import opened Hash
  import opened FileReading

  /** The number of blocks of a file of `size` bytes: one per started run of
      `blockSize` bytes. */
  function BlockCount(size: nat, blockSize: nat): (n: nat)
    requires blockSize > 0
    ensures n <= size
    ensures n == 0 <==> size == 0
    decreases size
  {
    if size == 0 then 0
    else if size <= blockSize then 1
    else 1 + BlockCount(size - blockSize, blockSize)
  }

  /** BlockCount is size / blockSize rounded up: the n blocks cover the size,
      and the last of them starts inside it. */
  lemma {:induction false} BlockCountIsCeiling(size: nat, blockSize: nat)
    requires blockSize > 0
    ensures BlockCount(size, blockSize) * blockSize >= size
    ensures BlockCount(size, blockSize) > 0 ==> (BlockCount(size, blockSize) - 1) * blockSize < size
    decreases size
  {
    var n := BlockCount(size, blockSize);
    if size > blockSize {
      BlockCountIsCeiling(size - blockSize, blockSize);
      assert n * blockSize == (n - 1) * blockSize + blockSize;
      assert (n - 1) * blockSize == (n - 2) * blockSize + blockSize;
    }
  }

  lemma MulMonotone(a: nat, b: nat, c: nat)
    requires a <= b
    ensures a * c <= b * c
  {
    assert b * c == a * c + (b - a) * c;
  }

  /** Block i starts inside the declared size exactly when i is below the block count. */
  lemma BelowBlockCount(size: nat, blockSize: nat, i: nat)
    requires blockSize > 0
    ensures i < BlockCount(size, blockSize) <==> i * blockSize < size
  {
    var n := BlockCount(size, blockSize);
    BlockCountIsCeiling(size, blockSize);
    if i < n {
      MulMonotone(i, n - 1, blockSize);
    } else {
      MulMonotone(n, i, blockSize);
    }
  }

  /** Both files can be opened and block i has the same digest in both. */
  ghost predicate BlocksAgree(env: Env, blockSize: nat, hashType: string, a: Path, b: Path, i: nat)
  {
    && a in env.disk
    && b in env.disk
    && BlockDigest(env, blockSize, hashType, env.disk[a], i) == BlockDigest(env, blockSize, hashType, env.disk[b], i)
  }

  /** The first index in [from, n) whose blocks do not agree, or n if there is none. */
  ghost function FirstMismatch(env: Env, blockSize: nat, hashType: string, a: Path, b: Path, from: nat, n: nat): (m: nat)
    requires from <= n
    ensures from <= m <= n
    ensures forall i :: from <= i < m ==> BlocksAgree(env, blockSize, hashType, a, b, i)
    ensures m < n ==> !BlocksAgree(env, blockSize, hashType, a, b, m)
    decreases n - from
  {
    if from == n then n
    else if !BlocksAgree(env, blockSize, hashType, a, b, from) then from
    else FirstMismatch(env, blockSize, hashType, a, b, from + 1, n)
  }

  /** Below the first mismatch, block i decides whether the mismatch lies
      further on or exactly at i. */
  lemma MismatchAt(env: Env, blockSize: nat, hashType: string, a: Path, b: Path, i: nat, n: nat)
    requires i < n && i <= FirstMismatch(env, blockSize, hashType, a, b, 0, n)
    ensures BlocksAgree(env, blockSize, hashType, a, b, i) ==> i < FirstMismatch(env, blockSize, hashType, a, b, 0, n)
    ensures !BlocksAgree(env, blockSize, hashType, a, b, i) ==> i == FirstMismatch(env, blockSize, hashType, a, b, 0, n)
  {
  }

  /** The verdict of CheckFilesEqual: equal declared sizes and no block that
      fails to agree. */
  ghost predicate FilesEqual(env: Env, blockSize: nat, hashType: string, a: Candidate, b: Candidate): (equal: bool)
    requires blockSize > 0
    ensures equal <==>
      && a.size == b.size
      && forall i :: 0 <= i < BlockCount(a.size, blockSize) ==> BlocksAgree(env, blockSize, hashType, a.path, b.path, i)
  {
    var n := BlockCount(a.size, blockSize);
    a.size == b.size && FirstMismatch(env, blockSize, hashType, a.path, b.path, 0, n) == n
  }

  /** How many GetBlock requests CheckFilesEqual makes of each reader: none when
      the sizes differ, otherwise one per index up to and including the first
      mismatch. */
  ghost function Requests(env: Env, blockSize: nat, hashType: string, a: Candidate, b: Candidate): (k: nat)
    requires blockSize > 0
    ensures a.size != b.size ==> k == 0
    ensures k <= BlockCount(a.size, blockSize)
    ensures FilesEqual(env, blockSize, hashType, a, b) ==> k == BlockCount(a.size, blockSize)
  {
    if a.size != b.size then 0
    else
      var n := BlockCount(a.size, blockSize);
      var m := FirstMismatch(env, blockSize, hashType, a.path, b.path, 0, n);
      if m == n then n else m + 1
  }

  /** Where the comparison of two files of the same declared size stops: at
      the first mismatch m, after m + 1 requests, or after all n blocks. */
  lemma ComparisonStops(env: Env, blockSize: nat, hashType: string, a: Candidate, b: Candidate, i: nat)
    requires blockSize > 0 && a.size == b.size
    requires i == FirstMismatch(env, blockSize, hashType, a.path, b.path, 0, BlockCount(a.size, blockSize))
    ensures FilesEqual(env, blockSize, hashType, a, b) <==> i == BlockCount(a.size, blockSize)
    ensures Requests(env, blockSize, hashType, a, b) == if i == BlockCount(a.size, blockSize) then i else i + 1
  {
  }

  /** A coherent reader of an openable file that has served requests for blocks
      0 .. i-1 holds block i after one more read, whenever i is below the block
      count: the guard of GetBlock as written and the corrected one agree on
      such readers. */
  lemma BlockAvailable(env: Env, blockSize: nat, hashType: string, file: Candidate, st: ReadState, i: nat)
    requires blockSize > 0
    requires Coherent(env, blockSize, hashType, file, st)
    requires file.path in env.disk && |st.blocks| >= i && i < BlockCount(file.size, blockSize)
    ensures |ReadStep(env, blockSize, hashType, file, st).blocks| > i
  {
    if st.complete {
      var k := |st.blocks|;
      BelowBlockCount(file.size, blockSize, i);
      if k <= i {
        MulMonotone(k, i, blockSize);
      }
    }
  }

  /** A reader that started coherent in `st0` and has served the requests for
      blocks 0 .. i-1: still coherent, and holding at least i digests when its
      file can be opened. */
  ghost predicate Served(env: Env, blockSize: nat, hashType: string, file: Candidate, st0: ReadState, i: nat)
  {
    var st := ReadSteps(env, blockSize, hashType, file, st0, i);
    && Coherent(env, blockSize, hashType, file, st)
    && (file.path in env.disk ==> |st.blocks| >= i)
  }

  /** What request i of CheckFilesEqual obtains from a reader that has served
      requests 0 .. i-1: the digest of block i when the file can be opened,
      nothing when it cannot; and the reader has then served request i too. */
  lemma RequestAnswer(env: Env, blockSize: nat, hashType: string, file: Candidate, st0: ReadState, i: nat)
    requires blockSize > 0
    requires Served(env, blockSize, hashType, file, st0, i)
    requires i < BlockCount(file.size, blockSize)
    ensures Served(env, blockSize, hashType, file, st0, i + 1)
    ensures var next := ReadSteps(env, blockSize, hashType, file, st0, i + 1);
      && (file.path in env.disk ==>
            |next.blocks| > i && next.blocks[i] == BlockDigest(env, blockSize, hashType, env.disk[file.path], i))
      && (file.path !in env.disk ==> next.blocks == [])
  {
    var st := ReadSteps(env, blockSize, hashType, file, st0, i);
    ReadStepCoherent(env, blockSize, hashType, file, st);
    if file.path in env.disk {
      BlockAvailable(env, blockSize, hashType, file, st, i);
    }
  }

  /** A reader that starts coherent has served every request below the block
      count of its file. */
  lemma {:induction false} ServedUpTo(env: Env, blockSize: nat, hashType: string, file: Candidate, st0: ReadState, i: nat)
    requires blockSize > 0
    requires Coherent(env, blockSize, hashType, file, st0)
    requires i <= BlockCount(file.size, blockSize)
    ensures Served(env, blockSize, hashType, file, st0, i)
  {
    if i > 0 {
      ServedUpTo(env, blockSize, hashType, file, st0, i - 1);
      RequestAnswer(env, blockSize, hashType, file, st0, i - 1);
    }
  }

  /** Two openable files with the same bytes and the same declared size compare equal. */
  lemma SameContentCompareEqual(env: Env, blockSize: nat, hashType: string, a: Candidate, b: Candidate)
    requires blockSize > 0
    requires a.path in env.disk && b.path in env.disk && env.disk[a.path] == env.disk[b.path]
    requires a.size == b.size
    ensures FilesEqual(env, blockSize, hashType, a, b)
  {
  }

  /** Byte t lies in block t / blockSize, at offset t % blockSize. */
  lemma BlockOf(t: nat, blockSize: nat) returns (j: nat, off: nat)
    requires blockSize > 0
    ensures off < blockSize && t == j * blockSize + off
  {
    j, off := t / blockSize, t % blockSize;
  }

  /** Under a digest that never maps two different buffers to the same text,
      byte t of two files that compare equal is the same in both, when t lies
      inside the declared size and both files are that long. */
  lemma EqualVerdictByte(env: Env, blockSize: nat, hashType: string, a: Candidate, b: Candidate, t: nat)
    requires blockSize > 0
    requires forall x: Bytes, y: Bytes :: GetHash(env.algs, hashType, x) == GetHash(env.algs, hashType, y) ==> x == y
    requires a.path in env.disk && |env.disk[a.path]| == a.size
    requires b.path in env.disk && |env.disk[b.path]| == b.size
    requires FilesEqual(env, blockSize, hashType, a, b)
    requires t < a.size
    ensures env.disk[a.path][t] == env.disk[b.path][t]
  {
    var ca, cb := env.disk[a.path], env.disk[b.path];
    var j, off := BlockOf(t, blockSize);
    BelowBlockCount(a.size, blockSize, j);
    assert BlocksAgree(env, blockSize, hashType, a.path, b.path, j);
    assert Block(ca, j, blockSize) == Block(cb, j, blockSize);
    BlockAt(ca, j, blockSize, off);
    BlockAt(cb, j, blockSize, off);
  }

  /** When the digest never maps two different buffers to the same text, files
      that compare equal and hold exactly their declared number of bytes have
      the same bytes. */
  lemma EqualVerdictMeansSameContent(env: Env, blockSize: nat, hashType: string, a: Candidate, b: Candidate)
    requires blockSize > 0
    requires forall x: Bytes, y: Bytes :: GetHash(env.algs, hashType, x) == GetHash(env.algs, hashType, y) ==> x == y
    requires a.path in env.disk && |env.disk[a.path]| == a.size
    requires b.path in env.disk && |env.disk[b.path]| == b.size
    requires FilesEqual(env, blockSize, hashType, a, b)
    ensures env.disk[a.path] == env.disk[b.path]
  {
    forall t | 0 <= t < a.size
      ensures env.disk[a.path][t] == env.disk[b.path][t]
    {
      EqualVerdictByte(env, blockSize, hashType, a, b, t);
    }
  }

  /** The verdict is symmetric and transitive (though not reflexive: a file
      that cannot be opened is unequal to itself), so the anchor-based
      grouping never leaves two groups that a third file would bridge
      (GroupsNotBridged). */
  lemma FilesEqualSymmetric(env: Env, blockSize: nat, hashType: string, a: Candidate, b: Candidate)
    requires blockSize > 0
    requires FilesEqual(env, blockSize, hashType, a, b)
    ensures FilesEqual(env, blockSize, hashType, b, a)
  {
    forall i | 0 <= i < BlockCount(b.size, blockSize)
      ensures BlocksAgree(env, blockSize, hashType, b.path, a.path, i)
    {
      assert BlocksAgree(env, blockSize, hashType, a.path, b.path, i);
    }
  }

  lemma FilesEqualTransitive(env: Env, blockSize: nat, hashType: string, a: Candidate, b: Candidate, c: Candidate)
    requires blockSize > 0
    requires FilesEqual(env, blockSize, hashType, a, b) && FilesEqual(env, blockSize, hashType, b, c)
    ensures FilesEqual(env, blockSize, hashType, a, c)
  {
    forall i | 0 <= i < BlockCount(a.size, blockSize)
      ensures BlocksAgree(env, blockSize, hashType, a.path, c.path, i)
    {
      assert BlocksAgree(env, blockSize, hashType, a.path, b.path, i);
      assert BlocksAgree(env, blockSize, hashType, b.path, c.path, i);
    }
  }

  /** With a hash type other than "md5" or "crc32" every block digest is the
      empty string, so any two readable files of the same declared size would
      compare equal: main.cpp rejects such a hash type before comparing. */
  lemma UnsupportedHashTypeMatchesEverything(env: Env, blockSize: nat, hashType: string, a: Candidate, b: Candidate)
    requires blockSize > 0 && !IsSupportedHashType(hashType)
    requires a.path in env.disk && b.path in env.disk && a.size == b.size
    ensures FilesEqual(env, blockSize, hashType, a, b)
  {
  }

  /** Readers that start unread never store a digest for a block after the
      first mismatch: one per request at most, and the requests stop there. */
  lemma NoDigestBeyondMismatch(env: Env, blockSize: nat, hashType: string, a: Candidate, b: Candidate)
    requires blockSize > 0
    requires a.size == b.size && !FilesEqual(env, blockSize, hashType, a, b)
    ensures var m := FirstMismatch(env, blockSize, hashType, a.path, b.path, 0, BlockCount(a.size, blockSize));
      && |ReadSteps(env, blockSize, hashType, a, UNREAD, Requests(env, blockSize, hashType, a, b)).blocks| <= m + 1
      && |ReadSteps(env, blockSize, hashType, b, UNREAD, Requests(env, blockSize, hashType, a, b)).blocks| <= m + 1
  {
    var k := Requests(env, blockSize, hashType, a, b);
    ReadStepsAppendOnly(env, blockSize, hashType, a, UNREAD, k);
    ReadStepsAppendOnly(env, blockSize, hashType, b, UNREAD, k);
  }

  /** Two files that compare equal, each read from the start by a fresh reader,
      each store exactly one digest per block: ceil(size / blockSize) of them. */
  lemma EqualFilesReadEachBlockOnce(env: Env, blockSize: nat, hashType: string, a: Candidate, b: Candidate)
    requires blockSize > 0
    requires a.path in env.disk
    requires FilesEqual(env, blockSize, hashType, a, b)
    ensures |ReadSteps(env, blockSize, hashType, a, UNREAD, Requests(env, blockSize, hashType, a, b)).blocks|
         == BlockCount(a.size, blockSize)
  {
    BlockCountIsCeiling(a.size, blockSize);
    FreshReaderReadsOncePerRequest(env, blockSize, hashType, a, BlockCount(a.size, blockSize));
  }

  class FilesMatcher {
    const blockSize: nat
    const hashType: string

    constructor (blockSize: nat, hashType: string)
      requires blockSize > 0
      ensures this.blockSize == blockSize && this.hashType == hashType
    {
      this.blockSize := blockSize;
      this.hashType := hashType;
    }

    /** Request i of CheckFilesEqual: block i of the first reader, then block
        i of the second, and whether both digests are there and equal. */
    method RequestBlock(env: Env, first: FileInfo, second: FileInfo, i: nat,
                        ghost first0: ReadState, ghost second0: ReadState) returns (agree: bool)
      requires blockSize > 0 && first != second && first.fileSize == second.fileSize
      requires i < BlockCount(first.fileSize, blockSize)
      requires Coherent(env, blockSize, hashType, first.File(), first0)
      requires Coherent(env, blockSize, hashType, second.File(), second0)
      requires first.State() == ReadSteps(env, blockSize, hashType, first.File(), first0, i)
      requires second.State() == ReadSteps(env, blockSize, hashType, second.File(), second0, i)
      modifies first, second
      ensures agree == BlocksAgree(env, blockSize, hashType, first.fileName, second.fileName, i)
      ensures first.State() == ReadSteps(env, blockSize, hashType, first.File(), first0, i + 1)
      ensures second.State() == ReadSteps(env, blockSize, hashType, second.File(), second0, i + 1)
    {
      ghost var a, b := first.File(), second.File();
      ServedUpTo(env, blockSize, hashType, a, first0, i);
      ServedUpTo(env, blockSize, hashType, b, second0, i);
      RequestAnswer(env, blockSize, hashType, a, first0, i);
      RequestAnswer(env, blockSize, hashType, b, second0, i);
      var block1 := first.GetBlock(env, i, blockSize, hashType);
      ghost var after1 := first.State();
      var block2 := second.GetBlock(env, i, blockSize, hashType);
      assert first.State() == after1;
      agree := block1.Some? && block2.Some? && block1.value == block2.value;
    }

    /** Compares two readers: false without any request when the declared sizes
        differ; otherwise requests block i of both readers (both of them, even
        when the first request fails) for i = 0, 1, ... and returns false at the
        first index where a request fails or the digests differ. */
    method CheckFilesEqual(env: Env, first: FileInfo, second: FileInfo) returns (equal: bool)
      requires blockSize > 0 && first != second
      requires Coherent(env, blockSize, hashType, first.File(), first.State())
      requires Coherent(env, blockSize, hashType, second.File(), second.State())
      modifies first, second
      ensures equal == FilesEqual(env, blockSize, hashType, first.File(), second.File())
      ensures first.State() == ReadSteps(env, blockSize, hashType, first.File(), old(first.State()),
                                         Requests(env, blockSize, hashType, first.File(), second.File()))
      ensures second.State() == ReadSteps(env, blockSize, hashType, second.File(), old(second.State()),
                                          Requests(env, blockSize, hashType, first.File(), second.File()))
      ensures Coherent(env, blockSize, hashType, first.File(), first.State())
      ensures Coherent(env, blockSize, hashType, second.File(), second.State())
    {
      if first.fileSize != second.fileSize {
        assert Requests(env, blockSize, hashType, first.File(), second.File()) == 0;
        return false;
      }
      ghost var a, b := first.File(), second.File();
      ghost var first0, second0 := first.State(), second.State();
      ghost var k;
      equal, k := CompareBlocks(env, first, second, first0, second0);
      ComparisonStops(env, blockSize, hashType, a, b, FirstMismatch(env, blockSize, hashType, a.path, b.path, 0, BlockCount(a.size, blockSize)));
      assert k == Requests(env, blockSize, hashType, a, b);
      assert equal == FilesEqual(env, blockSize, hashType, a, b);
      ReadStepsCoherent(env, blockSize, hashType, a, first0, k);
      ReadStepsCoherent(env, blockSize, hashType, b, second0, k);
      assert Coherent(env, blockSize, hashType, a, first.State());
      assert Coherent(env, blockSize, hashType, b, second.State());
    }

    /** The loop of CheckFilesEqual over block indices, for two readers of the
        same declared size: it stops after the first mismatch, having made
        `requests` requests of each reader. */
    method CompareBlocks(env: Env, first: FileInfo, second: FileInfo, ghost first0: ReadState, ghost second0: ReadState)
      returns (equal: bool, ghost requests: nat)
      requires blockSize > 0 && first != second && first.fileSize == second.fileSize
      requires Coherent(env, blockSize, hashType, first.File(), first0)
      requires Coherent(env, blockSize, hashType, second.File(), second0)
      requires first.State() == first0 && second.State() == second0
      modifies first, second
      ensures var n := BlockCount(first.fileSize, blockSize);
        var m := FirstMismatch(env, blockSize, hashType, first.fileName, second.fileName, 0, n);
        && equal == (m == n)
        && requests == (if m == n then n else m + 1)
      ensures first.State() == ReadSteps(env, blockSize, hashType, first.File(), first0, requests)
      ensures second.State() == ReadSteps(env, blockSize, hashType, second.File(), second0, requests)
    {
      var blocksCount := BlockCount(first.fileSize, blockSize);
      ghost var m := FirstMismatch(env, blockSize, hashType, first.fileName, second.fileName, 0, blocksCount);
      var i := 0;
      while i < blocksCount
        invariant i <= m <= blocksCount
        invariant first.State() == ReadSteps(env, blockSize, hashType, first.File(), first0, i)
        invariant second.State() == ReadSteps(env, blockSize, hashType, second.File(), second0, i)
      {
        var agree := RequestBlock(env, first, second, i, first0, second0);
        MismatchAt(env, blockSize, hashType, first.fileName, second.fileName, i, blocksCount);
        if !agree {
          equal, requests := false, i + 1;
          assert first.State() == ReadSteps(env, blockSize, hashType, first.File(), first0, requests);
          assert second.State() == ReadSteps(env, blockSize, hashType, second.File(), second0, requests);
          return;
        }
        i := i + 1;
      }
      assert i == blocksCount;
      equal, requests := true, i;
    }
  }
}

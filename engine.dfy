/** merkle_root of clib/engine.cpp: the C entry point with its status codes,
    its out-parameter for the root and its bounded error buffer, built with
    the same loops as the source: a push_back loop for level 0 and, per
    round, a scan in steps of two that appends to a fresh next level. */
module Engine {
  import opened Digests
  import opened Merkle
  import opened ErrorBuffer

  /** Return status of merkle_root. */
  const STATUS_OK: int := 0
  const STATUS_EMPTY_INPUT: int := 1
  const STATUS_MALLOC_FAILED: int := 2

  const EMPTY_INPUT_MSG: string := "Empty input"
  const MALLOC_FAILED_MSG: string := "malloc failed"

  /** Error-buffer capacity the header asks callers to provide. */
  const ENGINE_ERRBUF_SIZE: nat := 256

  /** What *out_root holds: NULL, or a heap block handed to the caller. */
  datatype RootPtr = Null | Block(bytes: seq<byte>)

  /** merkle_root(inputs, lengths, n, out_root, errbuf, errbuf_len).
      outRoot and errbuf are what the caller's out-locations hold before the
      call; outRoot' and errbuf' what they hold after it. Whether malloc
      succeeds is not determined by the inputs, so both outcomes are
      allowed when the list is non-empty. hashCalls counts calls of H and
      rounds the iterations of the reduction loop. */
  method MerkleRoot(H: Hasher, inputs: seq<seq<byte>>, outRoot: RootPtr, errbuf: seq<char>, errbufLen: int)
    returns (status: int, outRoot': RootPtr, errbuf': seq<char>, ghost hashCalls: nat, ghost rounds: nat)
    requires 0 <= errbufLen <= |errbuf|
    ensures status == STATUS_OK || status == STATUS_EMPTY_INPUT || status == STATUS_MALLOC_FAILED
    ensures status == STATUS_EMPTY_INPUT <==> inputs == []
    ensures inputs == [] ==>
              outRoot' == outRoot && errbuf' == Snprintf(errbuf, errbufLen, EMPTY_INPUT_MSG) &&
              hashCalls == 0 && rounds == 0
    ensures inputs != [] ==>
              hashCalls == |inputs| + InternalNodes(|inputs|) && rounds == Depth(|inputs|)
    ensures status == STATUS_OK ==>
              inputs != [] && outRoot' == Block(Root(H, inputs)) &&
              |outRoot'.bytes| == DIGEST_SIZE && errbuf' == errbuf
    ensures status == STATUS_MALLOC_FAILED ==>
              outRoot' == Null && errbuf' == Snprintf(errbuf, errbufLen, MALLOC_FAILED_MSG)
  {
    var n := |inputs|;
    if n == 0 {
      errbuf' := Snprintf(errbuf, errbufLen, EMPTY_INPUT_MSG);
      return STATUS_EMPTY_INPUT, outRoot, errbuf', 0, 0;
    }

    // Level 0: one leaf hash per input, in order.
    var hashes: seq<Digest> := [];
    hashCalls := 0;
    var i := 0;
    while i < n
      invariant 0 <= i <= n
      invariant hashes == Leaves(H, inputs[..i])
      invariant hashCalls == i
    {
      assert inputs[..i + 1][..i] == inputs[..i];
      hashes := hashes + [H(inputs[i])];
      hashCalls := hashCalls + 1;
      i := i + 1;
    }
    assert inputs[..n] == inputs;

    // Reduction rounds until one digest remains.
    ghost var root := Root(H, inputs);
    rounds := 0;
    while |hashes| > 1
      invariant |hashes| >= 1
      invariant Reduce(H, hashes) == root
      invariant rounds + Depth(|hashes|) == Depth(n)
      invariant hashCalls + InternalNodes(|hashes|) == n + InternalNodes(n)
      decreases |hashes|
    {
      var next, calls := BuildNextLevel(H, hashes);
      hashCalls := hashCalls + calls;
      hashes := next;
      rounds := rounds + 1;
    }

    // *out_root = malloc(SHA256_SIZE), which may return NULL.
    var allocOk: bool := *;
    if !allocOk {
      errbuf' := Snprintf(errbuf, errbufLen, MALLOC_FAILED_MSG);
      return STATUS_MALLOC_FAILED, Null, errbuf', hashCalls, rounds;
    }
    return STATUS_OK, Block(hashes[0]), errbuf, hashCalls, rounds;
  }

  /** One iteration of merkle_root's reduction loop: the for loop that scans
      the current level in steps of two and appends one hash per pair, the
      lone last digest being paired with itself. It makes one hash call per
      entry it appends. */
  method BuildNextLevel(H: Hasher, hashes: seq<Digest>) returns (next: seq<Digest>, ghost calls: nat)
    ensures next == NextLevel(H, hashes)
    ensures calls == |next|
  {
    next := [];
    calls := 0;
    var j := 0;
    while j < |hashes|
      invariant j == 2 * |next|
      invariant j <= |hashes| + 1
      invariant forall m :: 0 <= m < |next| ==> next[m] == PairAt(H, hashes, m)
      invariant calls == |next|
    {
      var concat: seq<byte> := hashes[j];
      if j + 1 < |hashes| {
        concat := concat + hashes[j + 1];
      } else {
        concat := concat + hashes[j];
      }
      assert concat == PairInput(hashes, |next|);
      next := next + [H(concat)];
      calls := calls + 1;
      j := j + 2;
    }
  }

  /** Two calls on the same input list agree: both fail with the empty-input
      status or neither does, and two successful calls return the same root. */
  method RootsAgree(H: Hasher, inputs: seq<seq<byte>>, errbuf: seq<char>)
    returns (status1: int, root1: RootPtr, status2: int, root2: RootPtr)
    ensures status1 == STATUS_EMPTY_INPUT <==> status2 == STATUS_EMPTY_INPUT
    ensures status1 == STATUS_OK && status2 == STATUS_OK ==> root1 == root2
    ensures status1 == STATUS_OK ==> root1.Block? && |root1.bytes| == DIGEST_SIZE
  {
    var err1, err2;
    ghost var calls, rounds;
    status1, root1, err1, calls, rounds := MerkleRoot(H, inputs, Null, errbuf, 0);
    status2, root2, err2, calls, rounds := MerkleRoot(H, inputs, Null, errbuf, 0);
  }

  /** With a buffer of the header's size both messages are stored whole and
      NUL-terminated. */
  lemma MessagesFitHeaderBuffer(errbuf: seq<char>)
    requires |errbuf| >= ENGINE_ERRBUF_SIZE
    ensures CString(Snprintf(errbuf, ENGINE_ERRBUF_SIZE, EMPTY_INPUT_MSG)) == EMPTY_INPUT_MSG
    ensures CString(Snprintf(errbuf, ENGINE_ERRBUF_SIZE, MALLOC_FAILED_MSG)) == MALLOC_FAILED_MSG
  {
    SnprintfReadsBack(errbuf, ENGINE_ERRBUF_SIZE, EMPTY_INPUT_MSG);
    SnprintfReadsBack(errbuf, ENGINE_ERRBUF_SIZE, MALLOC_FAILED_MSG);
    assert EMPTY_INPUT_MSG[..|EMPTY_INPUT_MSG|] == EMPTY_INPUT_MSG;
    assert MALLOC_FAILED_MSG[..|MALLOC_FAILED_MSG|] == MALLOC_FAILED_MSG;
  }
}

# Merkle root of an ordered list of byte strings

This project models `merkle_root` from `clib/engine.cpp`, the one
self-contained computation of the repository, and proves properties of it.
The function takes a non-empty, ordered list of byte strings. It hashes each
string into level 0. Then, while a level holds more than one digest, it builds
the next level from left to right: each pair of neighbours `d[i], d[i+1]`
becomes `H(d[i] || d[i+1])`, and a lone last digest `d[i]` becomes
`H(d[i] || d[i])`. The one digest left is the root. It is copied into a freshly
allocated 32-byte buffer handed to the caller through `*out_root`. The
function returns status 0 on success, 1 for an empty list and 2 when the
allocation fails. The two failures write "Empty input" or "malloc failed" into
the caller's bounded error buffer.

Modules:

- `Digests` (`digests.dfy`): bytes, 32-byte digests (`SHA256_SIZE`), the hash
  primitive as a parameter `H: seq<byte> -> Digest`, and the raw 64-byte pair
  concatenation.
- `Merkle` (`merkle.dfy`): the pure specification. It defines level 0
  (`Leaves`), one reduction round (`NextLevel`, with `PairAt` as the
  index-based reference), m rounds in a row (`Iterate`), the root (`Reduce`,
  `Root`), the number of rounds
  (`Depth`) and the number of hash calls (`InternalNodes`), with lemmas about
  all of them.
- `ErrorBuffer` (`errbuf.dfy`): the caller's character buffer and the bounded
  write the engine does into it (`snprintf` with a plain message), with the C
  string that can be read back afterwards.
- `Engine` (`engine.dfy`): the C entry point as an imperative method.
  `MerkleRoot` keeps the source's loops: a `push_back` loop for level 0 and a
  `while` loop of rounds. Each round is the `i += 2` scan, here the method
  `BuildNextLevel`, which appends to a fresh `next` level that then replaces
  `hashes`. The method is proved against `Merkle.Root`, and against the
  `ErrorBuffer` write for both error exits.

The environment appears in the model as follows.

- SHA-256 (OpenSSL's `SHA256`) is a parameter. Nothing depends on its
  internals, so every result holds for any total hash function with 32-byte
  output.
- Whether `malloc` succeeds is a nondeterministic choice inside `MerkleRoot`.
  Its contract therefore allows both outcomes for a non-empty list and says
  exactly what each outcome leaves behind.
- The C out-locations `*out_root` and `errbuf` are passed in with their
  contents before the call and returned with their contents after it.
  `RootPtr` is `Null` or a `Block` of bytes.
- The `(inputs[i], lengths[i])` pointer/length pairs are a `seq<seq<byte>>`,
  and `n` is its length.

Collision resistance cannot be proved, so the order-sensitivity and
different-inputs properties are stated as reductions instead. If two input
lists of equal length have the same root, then either the lists are equal or
the lemma returns two different byte strings with the same hash. No
injectivity assumption on `H` is made. A map into 32-byte strings cannot be
injective, so such an assumption could never hold. The equal-length condition
cannot be dropped. Because of odd-node duplication, an odd list of three or
more inputs and the same list with its last input repeated have the same root
for every `H` (`RepeatedLastInputSameRoot`).

## Model

| member | source | states |
|---|---|---|
| `Digests.Concat` | clib/engine.cpp:28-33 | the hashed pair input is exactly 64 bytes: the left digest, then the right one, with nothing between them |
| `Merkle.Leaves` | clib/engine.cpp:18-22 | level 0 has exactly one digest per input, and digest i is H(inputs[i]), so input order is kept; no input length is rejected, so a zero-length input yields H([]) |
| `Merkle.PairInput` | clib/engine.cpp:28-33 | the input hashed for entry j of the next level is 64 bytes: digest 2j, then digest 2j+1 when it exists and digest 2j again when it does not |
| `Merkle.PairAt` | clib/engine.cpp:34-35 | entry j of the next level is H(d[2j] \|\| d[2j+1]) when 2j+1 < k, and H(d[2j] \|\| d[2j]) for the lone last digest of an odd level |
| `Merkle.NextLevel` | clib/engine.cpp:27-37 | one round turns k digests into ceil(k/2) digests; entry j is H(d[2j] \|\| d[2j+1]) when 2j+1 < k, and H(d[2j] \|\| d[2j]) otherwise |
| `Merkle.NextLevelShrinks` | clib/engine.cpp:25-39 | a level with more than one digest shrinks to a smaller, non-empty level, so the while loop terminates |
| `Merkle.IterateShift` | clib/engine.cpp:25-39 | doing one round first and then m more reaches the same level as doing m + 1 rounds |
| `Merkle.Reduce` | clib/engine.cpp:25-39 | after exactly Depth(k) rounds of NextLevel, a level of k >= 1 digests has shrunk to one digest, and the result is that digest |
| `Merkle.Root` | clib/engine.cpp:9-48 | the root of a non-empty list is the one digest left after Depth(n) rounds on the leaf level; for a single input it is H(inputs[0]) |
| `Merkle.LastLoopLevelIsPair` | clib/engine.cpp:25-39 | for k >= 2 digests, the level the loop holds before its last round, after Depth(k) - 1 rounds, has exactly two digests |
| `Merkle.RootHashesTwoNodes` | clib/engine.cpp:25-39 | for k >= 2 digests, the root is H(t[0] \|\| t[1]) where t is that two-digest level, so the top of the tree is never a duplicated node |
| `Merkle.LastRoundPairs` | clib/engine.cpp:25-39 | a round that leaves a single digest of a level with more than one started from exactly two digests |
| `Merkle.Depth` | clib/engine.cpp:25-39 | the number of rounds on k >= 1 leaves is ceil(log2 k): k <= 2^Depth(k), and 2^(Depth(k)-1) < k when k > 1 |
| `Merkle.InternalNodes` | clib/engine.cpp:18-39 | the pair hashes on k >= 1 leaves number at least k/2 when k > 1, and together with the k leaf hashes at most 3k - 2 calls of H |
| `Merkle.SingleLeafRoot` | clib/engine.cpp:18-25 | with one input the root is H(x) with no self-concatenation |
| `Merkle.TwoLeafRoot` | clib/engine.cpp:25-39 | with inputs a, b the root is H(H(a) \|\| H(b)) |
| `Merkle.ThreeLeafRoot` | clib/engine.cpp:30-33 | with inputs a, b, c, level 1 is [H(H(a)\|\|H(b)), H(H(c)\|\|H(c))] and the root is the hash of those two entries |
| `Merkle.NextLevelIgnoresRepeatedLast` | clib/engine.cpp:30-33 | appending a copy of the last digest to an odd level leaves the next level unchanged |
| `Merkle.RepeatedLastInputSameRoot` | clib/engine.cpp:18-39 | an odd list of at least three inputs and the same list with its last input repeated have the same root, whatever H is |
| `Merkle.NextLevelCollision` | clib/engine.cpp:27-37 | two equal-length levels with the same next level are equal, or the lemma returns a != b with H(a) == H(b) |
| `Merkle.ReduceCollision` | clib/engine.cpp:25-39 | two equal-length levels that reduce to the same digest are equal, or an H collision is returned |
| `Merkle.RootCollision` | go/internal/cgobridge/cgobridge_test.go:125-156 | two input lists of the same length with the same root are equal, or an H collision is returned, so reordering or changing the inputs changes the root unless H collides |
| `ErrorBuffer.Snprintf` | clib/engine.cpp:11 | the bounded write keeps the buffer's length, changes nothing at or beyond errbuf_len, changes nothing when errbuf_len is 0, and otherwise puts a NUL inside the first errbuf_len characters |
| `ErrorBuffer.CString` | clib/engine.cpp:11 | the C string of a buffer is its prefix before the first NUL: it holds no NUL, and a NUL follows it unless it is the whole buffer |
| `ErrorBuffer.SnprintfReadsBack` | clib/engine.cpp:43 | after a write with errbuf_len > 0, the C string in the buffer is the message cut to errbuf_len - 1 characters |
| `Engine.MessagesFitHeaderBuffer` | clib/engine.h:8 | with a buffer of ENGINE_ERRBUF_SIZE = 256 characters, "Empty input" and "malloc failed" are both read back in full |
| `Engine.BuildNextLevel` | clib/engine.cpp:26-37 | the `i += 2` loop builds exactly NextLevel(H, hashes), with one hash call per appended entry |
| `Engine.MerkleRoot` | clib/engine.cpp:9-48 | status is 0, 1 or 2, and 1 exactly when the list is empty. On 1, *out_root is untouched, "Empty input" is written with the bounded write, and H is never called. On 0, *out_root is a 32-byte block holding Root(H, inputs), and errbuf is untouched. On 2, *out_root is NULL and "malloc failed" is written. For a non-empty list, H is called n + InternalNodes(n) times and the loop runs Depth(n) rounds, so with one input (Depth(1) == 0) the loop body never runs |
| `Engine.RootsAgree` | go/internal/cgobridge/cgobridge_test.go:103-123 | two calls on the same list agree on whether it is empty, two successful calls return the same root, and a successful root is 32 bytes |

## Left out

- SHA-256 itself (clib/engine.cpp:20,35) is an abstract parameter. Results that need its cryptographic strength are stated as reductions to an explicit collision.
- "The root is not all zeros" (go/internal/cgobridge/cgobridge_test.go:97) holds only with high probability for SHA-256. The code does not guarantee it, so it is not modelled.
- `free_root` (clib/engine.cpp:50-52) only calls `free`. The model does not include the caller's duty to release the block exactly once.
- `Engine.MerkleRoot`: requires 0 <= errbuf_len <= the buffer's size. A negative `int errbuf_len` becomes a huge `size_t` in `snprintf`, so the bound would no longer protect the buffer. The header documents the buffer as ENGINE_ERRBUF_SIZE bytes.
- `Engine.MerkleRoot`: `size_t` overflow of `i + 1` and `i += 2` is not modelled. Integers are unbounded, and a level cannot come near `SIZE_MAX` entries.
- `Engine.MerkleRoot`: does not model `std::bad_alloc`. `hashes.reserve(n)` (clib/engine.cpp:16), the `push_back` calls (:21, :36), the `concat.insert` calls (:29-33) and the assignment `hashes = next` (:38) can throw it out of the `extern "C"` function, and the caller then gets no status at all. The model treats these operations as infallible, so every run ends with status 0, 1 or 2, and only the `malloc` at :41 can fail.
- `hashes.reserve(n)`, how the vectors are laid out in memory, and the `memcpy` into the block are all modelled by values. The block holds the root's 32 bytes.
- `snprintf` is modelled only for a message without conversion specifiers, which is how the engine calls it.
- The Go service, database, HTTP, metrics and client code, and the cgo bridge, are not part of this model. They are I/O and concurrency plumbing around the engine, and the bridge does not call `merkle_root`.

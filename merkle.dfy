/** The Merkle-root reduction of clib/engine.cpp as pure definitions: leaf
    hashing (level 0), one reduction round with odd-node duplication, the
    repeated reduction down to one digest, and the facts the engine relies on
    or that follow from its pairing scheme. */
module Merkle {
  import opened Digests

  // ---------------------------------------------------------------------
  // Level 0
  // ---------------------------------------------------------------------

  /** Level 0: one digest per input, in input order, built by appending as
      the engine's push_back loop does. No length is rejected: a zero-length
      input contributes H([]). */
  function Leaves(H: Hasher, inputs: seq<seq<byte>>): (level: seq<Digest>)
    ensures |level| == |inputs|
    ensures forall i :: 0 <= i < |inputs| ==> level[i] == H(inputs[i])
  {
    if inputs == [] then []
    else Leaves(H, inputs[..|inputs| - 1]) + [H(inputs[|inputs| - 1])]
  }

  // ---------------------------------------------------------------------
  // One reduction round
  // ---------------------------------------------------------------------

  /** The 64-byte input hashed for entry j of the next level: the digest at
      2j followed by its right neighbour, or by itself when it has none. */
  function PairInput(d: seq<Digest>, j: nat): (concat: seq<byte>)
    requires 2 * j < |d|
    ensures |concat| == 2 * DIGEST_SIZE
    ensures concat[..DIGEST_SIZE] == d[2 * j]
    ensures concat[DIGEST_SIZE..] == (if 2 * j + 1 < |d| then d[2 * j + 1] else d[2 * j])
  {
    Concat(d[2 * j], if 2 * j + 1 < |d| then d[2 * j + 1] else d[2 * j])
  }

  /** Entry j of the level built from d: the hash of the pair at 2j and
      2j + 1, or of the lone last digest with itself. */
  function PairAt(H: Hasher, d: seq<Digest>, j: nat): (r: Digest)
    requires 2 * j < |d|
    ensures 2 * j + 1 < |d| ==> r == H(Concat(d[2 * j], d[2 * j + 1]))
    ensures 2 * j + 1 == |d| ==> r == H(Concat(d[2 * j], d[2 * j]))
  {
    H(PairInput(d, j))
  }

  /** One round: pairs taken from the front, a lone last digest hashed with
      itself. The contract ties this recursive definition to the engine's
      index-based scan: ceil(k/2) entries, entry j being PairAt(d, j). */
  function NextLevel(H: Hasher, d: seq<Digest>): (next: seq<Digest>)
    ensures |next| == (|d| + 1) / 2
    ensures forall j :: 0 <= j < |next| ==> next[j] == PairAt(H, d, j)
    decreases |d|
  {
    if d == [] then []
    else if |d| == 1 then [H(Concat(d[0], d[0]))]
    else [H(Concat(d[0], d[1]))] + NextLevel(H, d[2..])
  }

  /** A round strictly shrinks every level that has more than one digest,
      which is why the engine's while loop terminates. */
  lemma NextLevelShrinks(H: Hasher, d: seq<Digest>)
    requires |d| > 1
    ensures 1 <= |NextLevel(H, d)| < |d|
  {
  }

  // ---------------------------------------------------------------------
  // Reduction to the root
  // ---------------------------------------------------------------------

  /** The level reached after m rounds. */
  function Iterate(H: Hasher, level: seq<Digest>, m: nat): seq<Digest>
    decreases m
  {
    if m == 0 then level else NextLevel(H, Iterate(H, level, m - 1))
  }

  /** m rounds after one round are m + 1 rounds. */
  lemma {:induction false} IterateShift(H: Hasher, level: seq<Digest>, m: nat)
    ensures Iterate(H, NextLevel(H, level), m) == Iterate(H, level, m + 1)
    decreases m
  {
    if m > 0 {
      IterateShift(H, level, m - 1);
      var prev := Iterate(H, NextLevel(H, level), m - 1);
      assert prev == Iterate(H, level, m);
      assert Iterate(H, NextLevel(H, level), m) == NextLevel(H, prev);
    }
  }

  /** Rounds applied until one digest remains; that digest. The loop stops
      after exactly Depth(|level|) rounds: the level reached then holds one
      digest, and it is the result. */
  function Reduce(H: Hasher, level: seq<Digest>): (r: Digest)
    requires |level| >= 1
    ensures |Iterate(H, level, Depth(|level|))| == 1
    ensures r == Iterate(H, level, Depth(|level|))[0]
    decreases |level|
  {
    if |level| == 1 then level[0]
    else
      var next := NextLevel(H, level);
      IterateShift(H, level, Depth(|next|));
      Reduce(H, next)
  }

  /** The Merkle root of a non-empty input list: the one digest left after
      Depth(n) rounds on the leaf level; for one input, its leaf hash. */
  function Root(H: Hasher, inputs: seq<seq<byte>>): (r: Digest)
    requires |inputs| >= 1
    ensures |Iterate(H, Leaves(H, inputs), Depth(|inputs|))| == 1
    ensures r == Iterate(H, Leaves(H, inputs), Depth(|inputs|))[0]
    ensures |inputs| == 1 ==> r == H(inputs[0])
  {
    Reduce(H, Leaves(H, inputs))
  }

  /** The level the loop holds before its last round, reached after
      Depth(|level|) - 1 rounds, always has exactly two digests. */
  lemma {:induction false} LastLoopLevelIsPair(H: Hasher, level: seq<Digest>)
    requires |level| >= 2
    ensures Depth(|level|) >= 1
    ensures |Iterate(H, level, Depth(|level|) - 1)| == 2
    decreases |level|
  {
    if |level| > 2 {
      var next := NextLevel(H, level);
      LastLoopLevelIsPair(H, next);
      var e: nat := Depth(|next|) - 1;
      IterateShift(H, level, e);
      assert Depth(|level|) - 1 == e + 1;
    }
  }

  /** The root of a level of two or more digests is the hash of the two
      distinct nodes of the level before the last round: the top of the tree
      never duplicates a node. */
  lemma RootHashesTwoNodes(H: Hasher, level: seq<Digest>)
    requires |level| >= 2
    ensures Depth(|level|) >= 1
    ensures |Iterate(H, level, Depth(|level|) - 1)| == 2
    ensures Reduce(H, level) ==
              H(Concat(Iterate(H, level, Depth(|level|) - 1)[0], Iterate(H, level, Depth(|level|) - 1)[1]))
  {
    LastLoopLevelIsPair(H, level);
    var e: nat := Depth(|level|) - 1;
    var top := Iterate(H, level, e);
    assert |top| == 2;
    assert Iterate(H, level, e + 1) == NextLevel(H, top);
    assert NextLevel(H, top)[0] == PairAt(H, top, 0);
  }

  /** A round that leaves one digest started from exactly two. */
  lemma LastRoundPairs(H: Hasher, d: seq<Digest>)
    requires |d| > 1 && |NextLevel(H, d)| == 1
    ensures |d| == 2
  {
  }

  // ---------------------------------------------------------------------
  // Number of rounds and number of hash calls
  // ---------------------------------------------------------------------

  function Pow2(e: nat): (p: nat)
    ensures p >= 1
  {
    if e == 0 then 1 else 2 * Pow2(e - 1)
  }

  /** Rounds the while loop runs on a level of k digests. It is ceil(log2 k):
      the least e with k <= 2^e. */
  function Depth(k: nat): (e: nat)
    ensures k >= 1 ==> k <= Pow2(e)
    ensures k > 1 ==> e >= 1 && Pow2(e - 1) < k
    decreases k
  {
    if k <= 1 then 0 else 1 + Depth((k + 1) / 2)
  }

  /** Hash calls the while loop makes on a level of k digests: one per
      entry of every level it builds. Together with the k leaf hashes that
      is at most 3k - 2 calls: linear in the number of inputs. */
  function InternalNodes(k: nat): (c: nat)
    ensures k >= 1 ==> k + c <= 3 * k - 2
    ensures k > 1 ==> c >= k / 2
    decreases k
  {
    if k <= 1 then 0 else (k + 1) / 2 + InternalNodes((k + 1) / 2)
  }

  // ---------------------------------------------------------------------
  // Small cases
  // ---------------------------------------------------------------------

  /** One input: zero rounds, the root is the leaf hash itself, with no
      self-concatenation. */
  lemma SingleLeafRoot(H: Hasher, x: seq<byte>)
    ensures Root(H, [x]) == H(x)
  {
    assert Leaves(H, [x]) == [H(x)];
  }

  /** Two inputs: the root is H(H(a) || H(b)). */
  lemma TwoLeafRoot(H: Hasher, a: seq<byte>, b: seq<byte>)
    ensures Root(H, [a, b]) == H(Concat(H(a), H(b)))
  {
    var l0 := Leaves(H, [a, b]);
    assert l0 == [H(a), H(b)];
    var l1 := NextLevel(H, l0);
    assert l1 == [H(Concat(H(a), H(b)))];
    assert Reduce(H, l0) == Reduce(H, l1) == l1[0];
  }

  /** Three inputs: the lone third leaf is paired with itself at level 1. */
  lemma ThreeLeafRoot(H: Hasher, a: seq<byte>, b: seq<byte>, c: seq<byte>)
    ensures NextLevel(H, Leaves(H, [a, b, c])) == [H(Concat(H(a), H(b))), H(Concat(H(c), H(c)))]
    ensures Root(H, [a, b, c]) == H(Concat(H(Concat(H(a), H(b))), H(Concat(H(c), H(c)))))
  {
    var l0 := Leaves(H, [a, b, c]);
    assert l0 == [H(a), H(b), H(c)];
    var l1 := NextLevel(H, l0);
    assert l1 == [H(Concat(H(a), H(b))), H(Concat(H(c), H(c)))];
    var l2 := NextLevel(H, l1);
    assert l2 == [H(Concat(l1[0], l1[1]))];
    assert Reduce(H, l0) == Reduce(H, l1) == Reduce(H, l2) == l2[0];
  }

  // ---------------------------------------------------------------------
  // Consequences of odd-node duplication
  // ---------------------------------------------------------------------

  /** Repeating the last digest of an odd level does not change the next
      level: the duplicate stands exactly where the engine would have used
      the lone digest twice. */
  lemma {:induction false} NextLevelIgnoresRepeatedLast(H: Hasher, d: seq<Digest>)
    requires |d| % 2 == 1
    ensures NextLevel(H, d + [d[|d| - 1]]) == NextLevel(H, d)
    decreases |d|
  {
    var e := d + [d[|d| - 1]];
    if |d| == 1 {
      assert e == [d[0], d[0]];
      assert e[2..] == [];
    } else {
      assert e[2..] == d[2..] + [d[2..][|d[2..]| - 1]];
      NextLevelIgnoresRepeatedLast(H, d[2..]);
    }
  }

  /** The root does not commit to the number of inputs: an odd list of at
      least three inputs and the same list with its last input repeated have
      the same root, whatever the hash. */
  lemma RepeatedLastInputSameRoot(H: Hasher, inputs: seq<seq<byte>>)
    requires |inputs| >= 3 && |inputs| % 2 == 1
    ensures Root(H, inputs + [inputs[|inputs| - 1]]) == Root(H, inputs)
  {
    var d := Leaves(H, inputs);
    var longer := inputs + [inputs[|inputs| - 1]];
    assert longer[..|longer| - 1] == inputs;
    assert Leaves(H, longer) == d + [d[|d| - 1]];
    NextLevelIgnoresRepeatedLast(H, d);
  }

  // ---------------------------------------------------------------------
  // Equal roots force a hash collision
  // ---------------------------------------------------------------------

  /** Equal pair inputs come from equal digests at the same positions. */
  lemma PairInputDetermines(d: seq<Digest>, e: seq<Digest>, k: nat)
    requires |d| == |e| && 2 * k < |d|
    requires PairInput(d, k) == PairInput(e, k)
    ensures d[2 * k] == e[2 * k]
    ensures 2 * k + 1 < |d| ==> d[2 * k + 1] == e[2 * k + 1]
  {
    var p, q := PairInput(d, k), PairInput(e, k);
    assert p[..DIGEST_SIZE] == q[..DIGEST_SIZE];
    if 2 * k + 1 < |d| {
      assert p[DIGEST_SIZE..] == q[DIGEST_SIZE..];
    }
  }

  /** Two different sequences of the same length differ at some position. */
  lemma DifferingIndex<T>(d: seq<T>, e: seq<T>) returns (j: nat)
    requires |d| == |e| && d != e
    ensures j < |d| && d[j] != e[j]
  {
    if d[0] != e[0] {
      j := 0;
    } else {
      assert d[1..] != e[1..];
      var i := DifferingIndex(d[1..], e[1..]);
      j := i + 1;
    }
  }

  /** Equal next levels agree on the hash of every pair input. */
  lemma SameEntry(H: Hasher, d: seq<Digest>, e: seq<Digest>, k: nat)
    requires |d| == |e| && 2 * k < |d|
    requires NextLevel(H, d) == NextLevel(H, e)
    ensures H(PairInput(d, k)) == H(PairInput(e, k))
  {
    var nd := NextLevel(H, d);
    assert nd[k] == PairAt(H, d, k);
  }

  /** Two equal-length levels with the same next level are equal, or the
      hash has a collision that this lemma exhibits. */
  lemma NextLevelCollision(H: Hasher, d: seq<Digest>, e: seq<Digest>) returns (a: seq<byte>, b: seq<byte>)
    requires |d| == |e|
    requires NextLevel(H, d) == NextLevel(H, e)
    ensures d == e || (a != b && H(a) == H(b))
  {
    a, b := [], [];
    if d != e {
      var j := DifferingIndex(d, e);
      var k := j / 2;
      a, b := PairInput(d, k), PairInput(e, k);
      SameEntry(H, d, e, k);
      if a == b {
        PairInputDetermines(d, e, k);
      }
    }
  }

  /** Two equal-length levels with the same root are equal, or the hash has
      a collision. */
  lemma {:induction false} ReduceCollision(H: Hasher, d: seq<Digest>, e: seq<Digest>) returns (a: seq<byte>, b: seq<byte>)
    requires |d| == |e| >= 1
    requires Reduce(H, d) == Reduce(H, e)
    ensures d == e || (a != b && H(a) == H(b))
    decreases |d|
  {
    a, b := [], [];
    if |d| == 1 {
      assert d == [d[0]] && e == [e[0]];
    } else {
      var nd, ne := NextLevel(H, d), NextLevel(H, e);
      if nd == ne {
        a, b := NextLevelCollision(H, d, e);
      } else {
        a, b := ReduceCollision(H, nd, ne);
      }
    }
  }

  /** Different input lists of the same length have different roots unless
      the hash has a collision, which the lemma exhibits. In particular
      reordering the inputs changes the root, and two different single
      inputs have different roots, up to a collision. The equal-length
      requirement is needed: see RepeatedLastInputSameRoot. */
  lemma RootCollision(H: Hasher, xs: seq<seq<byte>>, ys: seq<seq<byte>>) returns (a: seq<byte>, b: seq<byte>)
    requires |xs| == |ys| >= 1
    requires Root(H, xs) == Root(H, ys)
    ensures xs == ys || (a != b && H(a) == H(b))
  {
    a, b := [], [];
    var lx, ly := Leaves(H, xs), Leaves(H, ys);
    if xs != ys {
      if lx == ly {
        var i :| 0 <= i < |xs| && xs[i] != ys[i];
        a, b := xs[i], ys[i];
        assert H(a) == lx[i] && H(b) == ly[i];
      } else {
        a, b := ReduceCollision(H, lx, ly);
      }
    }
  }
}

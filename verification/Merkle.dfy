/** The Merkle tree over the audit log's entry hashes (src/audit.c). Leaves
    and nodes are hashed with the domain bytes 0x00 and 0x01; a level of odd
    length pairs its last node with itself. */
module Merkle {
  import opened Common

  type Hash = Bytes -> Digest

  const DIGEST_BYTES := 32

  /** audit_load_merkle_leaves refuses more entries than this. */
  const MAX_LEAVES := SIZE_MAX / DIGEST_BYTES

  /** AUDIT_MERKLE_PROOF_MAX_HASHES. */
  const PROOF_MAX_HASHES := 64

  function LeafInput(entry: Digest): Bytes { [0x00] + entry }

  function NodeInput(left: Digest, right: Digest): Bytes { [0x01] + left + right }

  function Node(sha: Hash, left: Digest, right: Digest): Digest { sha(NodeInput(left, right)) }

  function Leaf(sha: Hash, entry: Digest): Digest { sha(LeafInput(entry)) }

  function Leaves(sha: Hash, entries: seq<Digest>): seq<Digest> {
    seq(|entries|, i requires 0 <= i < |entries| => Leaf(sha, entries[i]))
  }

  /** The level above: node i joins nodes 2i and 2i+1, or 2i with itself. */
  function Parents(sha: Hash, level: seq<Digest>): seq<Digest> {
    seq((|level| + 1) / 2, i requires 0 <= i < (|level| + 1) / 2 =>
      Node(sha, level[2 * i], level[if 2 * i + 1 < |level| then 2 * i + 1 else 2 * i]))
  }

  function Root(sha: Hash, level: seq<Digest>): Digest
    requires level != []
    decreases |level|
  {
    if |level| == 1 then level[0] else Root(sha, Parents(sha, level))
  }

  /** What an external holder records: all zero for the empty log. */
  function LogRoot(sha: Hash, entries: seq<Digest>): Digest {
    if entries == [] then ZeroDigest() else Root(sha, Leaves(sha, entries))
  }

  /** A leaf and a node never hash one message: a leaf taken for a node is a
      collision. The empty log has a root of its own, all zero. */
  lemma {:induction false} LeafIsNoNode(sha: Hash, entry: Digest, left: Digest, right: Digest)
    ensures LeafInput(entry)[0] == 0x00 && NodeInput(left, right)[0] == 0x01
    ensures Leaf(sha, entry) == Node(sha, left, right) ==> Collision(sha, LeafInput(entry), NodeInput(left, right))
    ensures LogRoot(sha, []) == Zeros(32) && LogRoot(sha, [entry]) == sha([0x00] + entry)
  {
    assert Leaves(sha, [entry]) == [Leaf(sha, entry)];
    assert LeafInput(entry)[0] != NodeInput(left, right)[0];
  }

  // ---------------------------------------------------------------- top-down reading

  /** Number of levels above the leaves. */
  function Height(n: nat): nat
    decreases n
  {
    if n <= 1 then 0 else 1 + Height((n + 1) / 2)
  }

  /** The subtree of height h that starts at leaf lo: its left half joined
      with its right half, or with itself when no leaf lies to the right. */
  function Subtree(sha: Hash, leaves: seq<Digest>, lo: nat, h: nat): Digest
    requires lo < |leaves|
    decreases h
  {
    if h == 0 then leaves[lo]
    else
      var left := Subtree(sha, leaves, lo, h - 1);
      if lo + Pow2(h - 1) < |leaves| then Node(sha, left, Subtree(sha, leaves, lo + Pow2(h - 1), h - 1))
      else Node(sha, left, left)
  }

  lemma {:induction false} SubtreeOfParents(sha: Hash, leaves: seq<Digest>, lo: nat, h: nat)
    requires 2 * lo < |leaves|
    ensures Subtree(sha, Parents(sha, leaves), lo, h) == Subtree(sha, leaves, 2 * lo, h + 1)
    decreases h
  {
    if h == 0 {
      assert Pow2(0) == 1;
      assert Subtree(sha, leaves, 2 * lo, 0) == leaves[2 * lo];
      if 2 * lo + 1 < |leaves| {
        assert Subtree(sha, leaves, 2 * lo + 1, 0) == leaves[2 * lo + 1];
      }
    } else {
      SubtreeOfParents(sha, leaves, lo, h - 1);
      assert Pow2(h) == 2 * Pow2(h - 1);
      if lo + Pow2(h - 1) < |Parents(sha, leaves)| {
        SubtreeOfParents(sha, leaves, lo + Pow2(h - 1), h - 1);
      }
    }
  }

  /** Reducing level by level computes the top-down tree. */
  lemma {:induction false} RootIsTopDown(sha: Hash, leaves: seq<Digest>)
    requires leaves != []
    ensures Root(sha, leaves) == Subtree(sha, leaves, 0, Height(|leaves|))
    decreases |leaves|
  {
    if |leaves| > 1 {
      RootIsTopDown(sha, Parents(sha, leaves));
      SubtreeOfParents(sha, leaves, 0, Height((|leaves| + 1) / 2));
    }
  }

  /** Height is the ceiling of the base-2 logarithm. */
  lemma {:induction false} HeightIsCeilLog2(n: nat)
    requires n >= 1
    ensures n <= Pow2(Height(n))
    ensures n > 1 ==> Pow2(Height(n) - 1) < n
    decreases n
  {
    if n > 1 {
      HeightIsCeilLog2((n + 1) / 2);
      if n > 2 {
        assert Pow2(Height(n) - 1) == 2 * Pow2(Height((n + 1) / 2) - 1);
      } else {
        assert Height(1) == 0 && Pow2(0) == 1;
      }
    }
  }

  lemma {:induction false} HeightBound(n: nat, k: nat)
    requires n <= Pow2(k)
    ensures Height(n) <= k
    decreases k
  {
    if n > 1 {
      HeightBound((n + 1) / 2, k - 1);
    }
  }

  // ---------------------------------------------------------------- proofs

  function SiblingIndex(index: nat, count: nat): nat
    requires index < count
    ensures SiblingIndex(index, count) < count
  {
    var s := if index % 2 == 0 then index + 1 else index - 1;
    if s >= count then index else s
  }

  /** The sibling hashes from leaf to root, concatenated. */
  function Proof(sha: Hash, level: seq<Digest>, index: nat): Bytes
    requires index < |level|
    decreases |level|
  {
    if |level| == 1 then []
    else level[SiblingIndex(index, |level|)] + Proof(sha, Parents(sha, level), index / 2)
  }

  function Join(sha: Hash, current: Digest, sibling: Digest, index: nat): Digest {
    if index % 2 == 0 then Node(sha, current, sibling) else Node(sha, sibling, current)
  }

  /** The digest the verifier arrives at, or None when the proof runs out or
      has bytes left over. */
  function Climb(sha: Hash, current: Digest, index: nat, count: nat, proof: Bytes): Option<Digest>
    decreases count
  {
    if count <= 1 then
      if proof == [] then Some(current) else None
    else if |proof| < DIGEST_BYTES then None
    else
      Climb(sha, Join(sha, current, proof[..DIGEST_BYTES], index), index / 2, (count + 1) / 2, proof[DIGEST_BYTES..])
  }

  predicate Accepts(sha: Hash, entry: Digest, index: nat, count: nat, proof: Bytes, root: Digest) {
    index < count && Climb(sha, Leaf(sha, entry), index, count, proof) == Some(root)
  }

  lemma {:induction false} ParentOf(sha: Hash, level: seq<Digest>, index: nat)
    requires index < |level| && |level| > 1
    ensures Parents(sha, level)[index / 2]
         == Join(sha, level[index], level[SiblingIndex(index, |level|)], index)
  {
    assert index % 2 == 0 ==> 2 * (index / 2) == index;
    assert index % 2 == 1 ==> 2 * (index / 2) + 1 == index;
  }

  /** Completeness: the built proof is consumed exactly and leads to the root;
      it holds one sibling per level. */
  lemma {:induction false} ProofClimbsToRoot(sha: Hash, level: seq<Digest>, index: nat)
    requires index < |level|
    ensures Climb(sha, level[index], index, |level|, Proof(sha, level, index)) == Some(Root(sha, level))
    ensures |Proof(sha, level, index)| == DIGEST_BYTES * Height(|level|)
    decreases |level|
  {
    if |level| > 1 {
      var up := Parents(sha, level);
      var sibling := level[SiblingIndex(index, |level|)];
      ParentOf(sha, level, index);
      ProofClimbsToRoot(sha, up, index / 2);
      var proof := Proof(sha, level, index);
      assert proof[..DIGEST_BYTES] == sibling;
      assert proof[DIGEST_BYTES..] == Proof(sha, up, index / 2);
    }
  }

  /** For every log the loader admits and every index, the proof the builder
      makes is accepted against the computed root and fits the buffer. */
  lemma {:induction false} ProofComplete(sha: Hash, entries: seq<Digest>, index: nat)
    requires index < |entries|
    ensures Accepts(sha, entries[index], index, |entries|,
                    Proof(sha, Leaves(sha, entries), index), LogRoot(sha, entries))
    ensures |entries| <= MAX_LEAVES ==>
              |Proof(sha, Leaves(sha, entries), index)| <= DIGEST_BYTES * PROOF_MAX_HASHES
  {
    ProofClimbsToRoot(sha, Leaves(sha, entries), index);
    if |entries| <= MAX_LEAVES {
      MaxLeavesFit();
      HeightBound(|entries|, 59);
    }
  }

  lemma {:induction false} MaxLeavesFit()
    ensures MAX_LEAVES <= Pow2(59)
  {
    assert Pow2(10) == 1024;
    assert Pow2(20) == 1024 * Pow2(10);
    assert Pow2(30) == 1024 * Pow2(20);
    assert Pow2(40) == 1024 * Pow2(30);
    assert Pow2(50) == 1024 * Pow2(40);
    assert Pow2(59) == 512 * Pow2(50);
  }

  /** Two nodes with one digest have the same children, or are a collision. */
  lemma {:induction false} NodeParts(sha: Hash, l: Digest, r: Digest, l': Digest, r': Digest)
    requires Node(sha, l, r) == Node(sha, l', r')
    ensures (l == l' && r == r') || Collision(sha, NodeInput(l, r), NodeInput(l', r'))
  {
    var a, b := NodeInput(l, r), NodeInput(l', r');
    if a == b {
      assert l == a[1..33] == b[1..33] == l';
      assert r == a[33..] == b[33..] == r';
    }
  }

  lemma {:induction false} JoinParts(sha: Hash, index: nat, current: Digest, sibling: Digest, current': Digest,
                                     sibling': Digest)
    returns (x: Bytes, y: Bytes)
    requires Join(sha, current, sibling, index) == Join(sha, current', sibling', index)
    ensures (current == current' && sibling == sibling') || Collision(sha, x, y)
  {
    if index % 2 == 0 {
      NodeParts(sha, current, sibling, current', sibling');
      x, y := NodeInput(current, sibling), NodeInput(current', sibling');
    } else {
      NodeParts(sha, sibling, current, sibling', current');
      x, y := NodeInput(sibling, current), NodeInput(sibling', current');
    }
  }

  lemma {:induction false} ProofFromParts(sha: Hash, level: seq<Digest>, index: nat, proof: Bytes)
    requires index < |level| && |level| > 1 && |proof| >= DIGEST_BYTES
    requires proof[..DIGEST_BYTES] == level[SiblingIndex(index, |level|)]
    requires proof[DIGEST_BYTES..] == Proof(sha, Parents(sha, level), index / 2)
    ensures proof == Proof(sha, level, index)
  {
    assert proof == proof[..DIGEST_BYTES] + proof[DIGEST_BYTES..];
  }

  /** Soundness at one level: what climbs to the root is the node itself with
      its own proof. Otherwise two hashed inputs collide, and they are returned. */
  lemma {:induction false} ClimbSound(sha: Hash, level: seq<Digest>, index: nat, current: Digest, proof: Bytes)
    returns (x: Bytes, y: Bytes)
    requires index < |level|
    requires Climb(sha, current, index, |level|, proof) == Some(Root(sha, level))
    ensures (current == level[index] && proof == Proof(sha, level, index)) || Collision(sha, x, y)
    decreases |level|
  {
    x, y := [], [];
    if |level| > 1 {
      var up, rest := Parents(sha, level), proof[DIGEST_BYTES..];
      var sibling: Digest, mine := proof[..DIGEST_BYTES], level[SiblingIndex(index, |level|)];
      ParentOf(sha, level, index);
      x, y := ClimbSound(sha, up, index / 2, Join(sha, current, sibling, index), rest);
      if !Collision(sha, x, y) {
        x, y := JoinParts(sha, index, current, sibling, level[index], mine);
        if !Collision(sha, x, y) {
          ProofFromParts(sha, level, index, proof);
        }
      }
    }
  }

  /** Soundness: with the true leaf count, an accepted entry hash is the one
      at that index and an accepted proof is the builder's, byte for byte. */
  lemma {:induction false} VerifierSound(sha: Hash, entries: seq<Digest>, entry: Digest, index: nat, proof: Bytes)
    returns (x: Bytes, y: Bytes)
    requires Accepts(sha, entry, index, |entries|, proof, LogRoot(sha, entries))
    ensures (entry == entries[index] && proof == Proof(sha, Leaves(sha, entries), index)) || Collision(sha, x, y)
  {
    var leaves := Leaves(sha, entries);
    x, y := ClimbSound(sha, leaves, index, Leaf(sha, entry), proof);
    if !Collision(sha, x, y) && entry != entries[index] {
      x, y := LeafInput(entry), LeafInput(entries[index]);
      assert x[1..] == entry && y[1..] == entries[index];
    }
  }

  /** Root and count together determine every entry hash. */
  lemma {:induction false} RootAndCountPinLog(sha: Hash, entries: seq<Digest>, others: seq<Digest>)
    returns (x: Bytes, y: Bytes)
    requires |entries| == |others|
    requires LogRoot(sha, entries) == LogRoot(sha, others)
    ensures entries == others || Collision(sha, x, y)
  {
    x, y := [], [];
    if entries != others {
      var i :| 0 <= i < |entries| && entries[i] != others[i];
      ProofComplete(sha, others, i);
      x, y := VerifierSound(sha, entries, others[i], i, Proof(sha, Leaves(sha, others), i));
    }
  }

  /** The count is needed: repeating the last leaf of an odd level of three
      or more leaves the root unchanged. */
  lemma {:induction false} RepeatedLastLeafSharesRoot(sha: Hash, entries: seq<Digest>)
    requires |entries| % 2 == 1 && |entries| >= 3
    ensures LogRoot(sha, entries) == LogRoot(sha, entries + [entries[|entries| - 1]])
  {
    var longer := entries + [entries[|entries| - 1]];
    assert Parents(sha, Leaves(sha, entries)) == Parents(sha, Leaves(sha, longer));
  }

  /** The message vault_audit_sign_root signs. */
  function SignedMessage(sha: Hash, entries: seq<Digest>): Bytes {
    LogRoot(sha, entries) + Le(|entries|, 8)
  }

  /** So one signed message stands for one list of entry hashes. */
  lemma {:induction false} SignedMessagePinsLog(sha: Hash, entries: seq<Digest>, others: seq<Digest>)
    returns (x: Bytes, y: Bytes)
    requires |entries| <= SIZE_MAX && |others| <= SIZE_MAX
    requires SignedMessage(sha, entries) == SignedMessage(sha, others)
    ensures entries == others || Collision(sha, x, y)
  {
    var a, b := SignedMessage(sha, entries), SignedMessage(sha, others);
    assert a[..32] == LogRoot(sha, entries) && b[..32] == LogRoot(sha, others);
    assert a[32..] == Le(|entries|, 8) && b[32..] == Le(|others|, 8);
    WidthLimits();
    LeInjective(|entries|, |others|, 8);
    x, y := RootAndCountPinLog(sha, entries, others);
  }

  // ---------------------------------------------------------------- the loops

  /** audit_reduce_merkle_level: fills a freshly allocated level. */
  method ReduceLevel(sha: Hash, current: array<Digest>) returns (status: Status, next: array<Digest>)
    ensures status == Ok <==> current.Length >= 2
    ensures status == Ok ==> fresh(next) && next[..] == Parents(sha, current[..])
  {
    if current.Length < 2 {
      return InvalidArgument, current;
    }
    next := new Digest[(current.Length + 1) / 2](_ => ZeroDigest());
    ghost var level := current[..];
    var i := 0;
    while i < next.Length
      invariant i <= next.Length && current[..] == level
      invariant forall k :: 0 <= k < i ==> next[k] == Parents(sha, level)[k]
    {
      var left := 2 * i;
      var right := left + 1;
      if right >= current.Length {
        right := left;
      }
      next[i] := Node(sha, current[left], current[right]);
      i := i + 1;
    }
    status := Ok;
  }

  /** audit_load_merkle_leaves, which also looks for the row of a target id
      when one above zero is given. */
  method LoadLeaves(sha: Hash, ids: seq<int>, entries: seq<Digest>, target: int)
    returns (status: Status, level: array<Digest>, index: nat)
    requires |ids| == |entries|
    ensures status == if |entries| > MAX_LEAVES then Storage else if target > 0 && target !in ids then NotFound else Ok
    ensures status == Ok ==> fresh(level) && level[..] == Leaves(sha, entries)
    ensures status == Ok && target > 0 ==> index < |ids| && ids[index] == target
  {
    index := 0;
    if entries == [] || |entries| > MAX_LEAVES {
      level := new Digest[0];
      assert entries == [] ==> level[..] == Leaves(sha, entries);
      status := if entries != [] then Storage else if target > 0 then NotFound else Ok;
      return;
    }
    level := new Digest[|entries|](_ => ZeroDigest());
    var found := false;
    var i := 0;
    while i < |entries|
      invariant 0 <= i <= |entries| && forall j :: 0 <= j < i ==> level[j] == Leaf(sha, entries[j])
      invariant !found ==> target <= 0 || forall j :: 0 <= j < i ==> ids[j] != target
      invariant found ==> target > 0 && index < i && ids[index] == target
    {
      level[i] := Leaf(sha, entries[i]);
      if target > 0 && ids[i] == target {
        index, found := i, true;
      }
      i := i + 1;
    }
    assert level[..] == Leaves(sha, entries);
    status := if target > 0 && !found then NotFound else Ok;
  }

  /** audit_compute_merkle_root. */
  method ComputeRoot(sha: Hash, entries: seq<Digest>) returns (status: Status, root: Digest, leafCount: nat)
    ensures status == Ok <==> |entries| <= MAX_LEAVES
    ensures status == Ok ==> root == LogRoot(sha, entries) && leafCount == |entries|
  {
    root, leafCount := ZeroDigest(), 0;
    var current, unused;
    status, current, unused := LoadLeaves(sha, seq(|entries|, i => i + 1), entries, 0);
    if status != Ok {
      return;
    }
    leafCount := current.Length;
    if current.Length == 0 {
      return;
    }
    while status == Ok && current.Length > 1
      invariant status == Ok && current.Length >= 1
      invariant Root(sha, current[..]) == LogRoot(sha, entries)
      decreases current.Length
    {
      status, current := ReduceLevel(sha, current);
    }
    root := current[0];
  }

  /** Part of a proof has been written and the rest starts at this level. */
  predicate PartWritten(sha: Hash, whole: Bytes, done: Bytes, level: seq<Digest>, index: nat) {
    index < |level| && done + Proof(sha, level, index) == whole
  }

  lemma {:induction false} PartStep(sha: Hash, whole: Bytes, done: Bytes, level: seq<Digest>, index: nat)
    requires PartWritten(sha, whole, done, level, index) && |level| > 1
    ensures var sibling := level[SiblingIndex(index, |level|)];
      PartWritten(sha, whole, done + sibling, Parents(sha, level), index / 2) && |done| + |sibling| <= |whole|
  {
    var sibling, rest := level[SiblingIndex(index, |level|)], Proof(sha, Parents(sha, level), index / 2);
    assert done + (sibling + rest) == done + sibling + rest;
  }

  lemma {:induction false} AllWritten(sha: Hash, whole: Bytes, done: Bytes, level: seq<Digest>, index: nat)
    requires PartWritten(sha, whole, done, level, index) && |level| == 1
    ensures done == whole
  {
  }

  /** audit_build_merkle_proof for one entry id, writing siblings into the
      caller's buffer through a moving offset. Ids are the table's primary key.
      A buffer that is too small is zeroed, and a failure reports no place. */
  method BuildProof(sha: Hash, ids: seq<int>, entries: seq<Digest>, entryId: int, proof: array<byte>)
    returns (status: Status, proofLen: nat, leafIndex: nat, leafCount: nat)
    requires |ids| == |entries|
    modifies proof
    ensures entryId < 1 ==> status == InvalidArgument
    ensures entryId >= 1 && |entries| > MAX_LEAVES ==> status == Storage
    ensures entryId >= 1 && |entries| <= MAX_LEAVES && entryId !in ids ==> status == NotFound
    ensures entryId >= 1 && |entries| <= MAX_LEAVES && entryId in ids ==>
              status == if DIGEST_BYTES * Height(|entries|) <= proof.Length then Ok else InvalidArgument
    ensures status == Ok ==>
              leafCount == |entries| && leafIndex < |ids| && ids[leafIndex] == entryId &&
              proofLen == |Proof(sha, Leaves(sha, entries), leafIndex)| <= proof.Length &&
              proof[..] == Proof(sha, Leaves(sha, entries), leafIndex) + old(proof[..])[proofLen..]
    ensures status != Ok ==> proofLen == leafIndex == leafCount == 0
    ensures status != Ok ==> proof[..] == if entryId in ids && entryId >= 1 && |entries| <= MAX_LEAVES
                                          then Zeros(proof.Length) else old(proof[..])
  {
    proofLen, leafIndex, leafCount := 0, 0, 0;
    if entryId < 1 {
      return InvalidArgument, 0, 0, 0;
    }
    var current, target;
    status, current, target := LoadLeaves(sha, ids, entries, entryId);
    if status != Ok {
      return;
    }
    status, proofLen := WriteProof(sha, current, target, proof);
    if status == Ok {
      leafIndex, leafCount := target, |entries|;
    }
  }

  /** The proof from the loaded leaves. */
  method WriteProof(sha: Hash, leaves: array<Digest>, target: nat, proof: array<byte>)
    returns (status: Status, proofLen: nat)
    requires target < leaves.Length <= MAX_LEAVES
    modifies proof
    ensures status == if DIGEST_BYTES * Height(leaves.Length) <= proof.Length then Ok else InvalidArgument
    ensures status == Ok ==>
              proofLen == |Proof(sha, leaves[..], target)| <= proof.Length &&
              proof[..] == Proof(sha, leaves[..], target) + old(proof[..])[proofLen..]
    ensures status != Ok ==> proofLen == 0 && proof[..] == Zeros(proof.Length)
  {
    ProofClimbsToRoot(sha, leaves[..], target);
    assert [] + Proof(sha, leaves[..], target) == Proof(sha, leaves[..], target);
    status, proofLen := WriteSiblings(sha, leaves, target, proof, Proof(sha, leaves[..], target));
    if status != Ok {
      ZeroBuffer(proof);
      proofLen := 0;
    }
  }

  method WriteSiblings(sha: Hash, leaves: array<Digest>, target: nat, proof: array<byte>, ghost whole: Bytes)
    returns (status: Status, proofLen: nat)
    requires PartWritten(sha, whole, [], leaves[..], target)
    modifies proof
    ensures status == if |whole| <= proof.Length then Ok else InvalidArgument
    ensures status == Ok ==> proofLen == |whole| && proof[..] == whole + old(proof[..])[proofLen..]
  {
    proofLen := 0;
    var current := leaves;
    ghost var before := proof[..];
    var index: nat := target;
    while current.Length > 1
      invariant index < current.Length && proofLen <= proof.Length
      invariant PartWritten(sha, whole, proof[..proofLen], current[..], index)
      invariant proof[proofLen..] == before[proofLen..]
      decreases current.Length
    {
      var siblingIndex := if index % 2 == 0 then index + 1 else index - 1;
      if siblingIndex >= current.Length {
        siblingIndex := index;
      }
      PartStep(sha, whole, proof[..proofLen], current[..], index);
      if proofLen + DIGEST_BYTES > proof.Length {
        return InvalidArgument, 0;
      }
      proofLen := AppendSibling(proof, proofLen, current[siblingIndex], before);
      status, current := ReduceLevel(sha, current);
      index := index / 2;
    }
    AllWritten(sha, whole, proof[..proofLen], current[..], index);
    assert proof[..] == proof[..proofLen] + proof[proofLen..];
    return Ok, proofLen;
  }

  method AppendSibling(proof: array<byte>, at: nat, sibling: Digest, ghost before: Bytes) returns (next: nat)
    requires at + DIGEST_BYTES <= proof.Length == |before| && proof[at..] == before[at..]
    modifies proof
    ensures next == at + DIGEST_BYTES
    ensures proof[..next] == old(proof[..at]) + sibling && proof[next..] == before[next..]
  {
    CopyInto(proof, at, sibling);
    next := at + DIGEST_BYTES;
    assert proof[next..] == old(proof[at..])[DIGEST_BYTES..] == before[at..][DIGEST_BYTES..];
  }

  /** audit_verify_merkle_proof: walks the proof with `index` and `count`
      halving at each step. */
  method VerifyProof(sha: Hash, entry: Digest, leafIndex: nat, leafCount: nat, proof: Bytes, root: Digest)
    returns (status: Status)
    ensures status == Ok <==> Accepts(sha, entry, leafIndex, leafCount, proof, root)
  {
    if leafCount == 0 || leafIndex >= leafCount || |proof| % DIGEST_BYTES != 0 {
      if |proof| % DIGEST_BYTES != 0 {
        ClimbNeedsWholeHashes(sha, Leaf(sha, entry), leafIndex, leafCount, proof);
      }
      return InvalidArgument;
    }
    var current := Leaf(sha, entry);
    var index: nat, count: nat, offset: nat := leafIndex, leafCount, 0;
    ghost var target := Climb(sha, current, index, count, proof);
    while count > 1
      invariant offset <= |proof|
      invariant Climb(sha, current, index, count, proof[offset..]) == target
      decreases count
    {
      if |proof| - offset < DIGEST_BYTES {
        return InvalidArgument;
      }
      var sibling: Digest := proof[offset..offset + DIGEST_BYTES];
      assert proof[offset..][..DIGEST_BYTES] == sibling;
      assert proof[offset..][DIGEST_BYTES..] == proof[offset + DIGEST_BYTES..];
      if index % 2 == 0 {
        current := Node(sha, current, sibling);
      } else {
        current := Node(sha, sibling, current);
      }
      offset := offset + DIGEST_BYTES;
      index := index / 2;
      count := (count + 1) / 2;
    }
    if offset != |proof| {
      status := InvalidArgument;
    } else if current != root {
      status := Crypto;
    } else {
      status := Ok;
    }
  }

  lemma {:induction false} ClimbNeedsWholeHashes(sha: Hash, current: Digest, index: nat, count: nat, proof: Bytes)
    requires |proof| % DIGEST_BYTES != 0
    ensures Climb(sha, current, index, count, proof) == None
    decreases count
  {
    if count > 1 && |proof| >= DIGEST_BYTES {
      ClimbNeedsWholeHashes(sha, Join(sha, current, proof[..DIGEST_BYTES], index), index / 2, (count + 1) / 2,
                            proof[DIGEST_BYTES..]);
    }
  }
}

/**
 Merkle trees and proofs over an abstract 32-byte hash: the level-by-level builder, path
 extraction and root recomputation; that paths verify, and that nothing else does short of
 an explicit hash collision.
 */
module Merkle {
  import opened Bytes
  import opened Hashing
  import opened Options

  const DEPTH: nat := 32

  /** The 32 zero bytes that stand in for a missing right neighbour. */
  function Zero(): Digest {
    Zeros(HASH_SIZE)
  }

  function HashPair(h: Hasher, left: seq<byte>, right: seq<byte>): Digest {
    h(left + right)
  }

  // ---------------------------------------------------------------------------
  // Trees
  // ---------------------------------------------------------------------------

  /** A leaf cut or zero-padded to 32 bytes. */
  function Normalize(leaf: seq<byte>): Digest {
    if |leaf| >= HASH_SIZE then leaf[..HASH_SIZE] else leaf + Zeros(HASH_SIZE - |leaf|)
  }

  function NormalizeAll(leaves: seq<seq<byte>>): (r: seq<Digest>)
    ensures |r| == |leaves|
    ensures forall i :: 0 <= i < |leaves| ==> r[i] == Normalize(leaves[i])
  {
    if leaves == [] then []
    else NormalizeAll(leaves[..|leaves| - 1]) + [Normalize(leaves[|leaves| - 1])]
  }

  /** The right neighbour of the even node 2j, or zeros past the end of the level. */
  function RightOf(level: seq<Digest>, j: nat): Digest {
    if 2 * j + 1 < |level| then level[2 * j + 1] else Zero()
  }

  function ParentInput(level: seq<Digest>, j: nat): (x: seq<byte>)
    requires 2 * j < |level|
  {
    level[2 * j] + RightOf(level, j)
  }

  function NextLevel(h: Hasher, level: seq<Digest>): (next: seq<Digest>)
    ensures |next| == (|level| + 1) / 2
    ensures forall j :: 0 <= j < |next| ==> next[j] == h(ParentInput(level, j))
  {
    NextPrefix(h, level, (|level| + 1) / 2)
  }

  /** The first k parents: what the pairing loop has pushed after k turns. */
  function NextPrefix(h: Hasher, level: seq<Digest>, k: nat): (next: seq<Digest>)
    requires k <= (|level| + 1) / 2
    ensures |next| == k
    ensures forall j :: 0 <= j < k ==> next[j] == h(ParentInput(level, j))
  {
    if k == 0 then [] else NextPrefix(h, level, k - 1) + [h(ParentInput(level, k - 1))]
  }

  function LevelAt(h: Hasher, leaves: seq<Digest>, n: nat): seq<Digest> {
    if n == 0 then leaves else NextLevel(h, LevelAt(h, leaves, n - 1))
  }

  /** How many times count nodes are paired up before one is left. */
  function Height(count: nat): nat {
    if count <= 1 then 0 else 1 + Height((count + 1) / 2)
  }

  /** count after n pairings. */
  function Halved(count: nat, n: nat): nat {
    if n == 0 then count else (Halved(count, n - 1) + 1) / 2
  }

  datatype MerkleTree = MerkleTree(leaves: seq<Digest>, nodes: seq<seq<Digest>>, root: Digest)

  /** The level the builder's loop ends at: the root's, or the DEPTH-th. */
  function TopLevel(count: nat): nat {
    Min(Height(count), DEPTH)
  }

  /** What nodes_[level] holds. */
  function StoredLevel(h: Hasher, leaves: seq<Digest>, level: nat): seq<Digest> {
    if level <= Height(|leaves|) then LevelAt(h, leaves, level) else []
  }

  ghost predicate IsTreeOf(h: Hasher, leaves: seq<Digest>, t: MerkleTree) {
    && t.leaves == leaves
    && |t.nodes| == DEPTH
    && (forall n :: 0 <= n < DEPTH ==> t.nodes[n] == StoredLevel(h, leaves, n))
    && var top := LevelAt(h, leaves, TopLevel(|leaves|));
       t.root == if top != [] then top[0] else Zero()
  }

  lemma {:induction false} LevelSize(h: Hasher, leaves: seq<Digest>, n: nat)
    ensures |LevelAt(h, leaves, n)| == Halved(|leaves|, n)
  {
    if n > 0 {
      LevelSize(h, leaves, n - 1);
    }
  }

  /** Below the root level two nodes or more are left, from it on at most one. */
  lemma {:induction false} HalvedHeight(count: nat, n: nat)
    ensures n <= Height(count) ==> Height(count) == n + Height(Halved(count, n))
    ensures Halved(count, n) <= 1 <==> n >= Height(count)
    ensures count > 0 ==> Halved(count, n) > 0
  {
    if n > 0 {
      HalvedHeight(count, n - 1);
    }
  }

  /** One turn of the builder: it stops at the root's level, and otherwise moves one level up. */
  lemma BuilderStep(h: Hasher, leaves: seq<Digest>, level: nat)
    requires level <= Height(|leaves|)
    ensures |LevelAt(h, leaves, level)| <= 1 <==> level == Height(|leaves|)
    ensures LevelAt(h, leaves, level + 1) == NextLevel(h, LevelAt(h, leaves, level))
  {
    hide NextLevel;
    LevelSize(h, leaves, level);
    HalvedHeight(|leaves|, level);
  }

  /** The builder: pair up level after level until one node is left or DEPTH levels are stored. */
  method FromLeaves(h: Hasher, leaves: seq<seq<byte>>) returns (t: MerkleTree)
    ensures IsTreeOf(h, NormalizeAll(leaves), t)
  {
    hide LevelAt, NextLevel, NormalizeAll, Height, Zero;
    var normalized := NormalizeLoop(leaves);
    ghost var top := Height(|normalized|);
    var nodes: seq<seq<Digest>> := [];
    var current := normalized;
    var level := 0;
    var done := false;
    LevelZero(h, normalized);
    while level < DEPTH && !done
      invariant level <= DEPTH && |nodes| == (if done then level + 1 else level)
      invariant done ==> level < DEPTH
      invariant level <= top && (done ==> level == top)
      invariant current == LevelAt(h, normalized, level)
      invariant forall n :: 0 <= n < |nodes| ==> nodes[n] == LevelAt(h, normalized, n)
      decreases DEPTH - level, if done then 0 else 1
    {
      nodes := nodes + [current];
      BuilderStep(h, normalized, level);
      if |current| <= 1 {
        done := true;
      } else {
        current := PairUp(h, current);
        level := level + 1;
      }
    }
    assert level == TopLevel(|normalized|);
    nodes := PadLevels(nodes);
    var root := if |current| > 0 then current[0] else Zero();
    t := MerkleTree(normalized, nodes, root);
  }

  lemma LevelZero(h: Hasher, leaves: seq<Digest>)
    ensures LevelAt(h, leaves, 0) == leaves
  {
  }

  method NormalizeLoop(leaves: seq<seq<byte>>) returns (r: seq<Digest>)
    ensures r == NormalizeAll(leaves)
  {
    r := [];
    var i := 0;
    while i < |leaves|
      invariant i <= |leaves| && r == NormalizeAll(leaves[..i])
    {
      assert leaves[..i + 1][..i] == leaves[..i];
      r := r + [Normalize(leaves[i])];
      i := i + 1;
    }
    assert leaves[..i] == leaves;
  }

  method PairUp(h: Hasher, level: seq<Digest>) returns (next: seq<Digest>)
    ensures next == NextLevel(h, level)
  {
    next := [];
    var i := 0;
    while i < |level|
      invariant i == 2 * |next| && i <= |level| + 1
      invariant next == NextPrefix(h, level, |next|)
    {
      if i + 1 < |level| {
        next := next + [HashPair(h, level[i], level[i + 1])];
      } else {
        next := next + [HashPair(h, level[i], Zero())];
      }
      i := i + 2;
    }
  }

  /** The vector was resized to DEPTH at the start; levels never reached stay empty. */
  method PadLevels(nodes: seq<seq<Digest>>) returns (r: seq<seq<Digest>>)
    requires |nodes| <= DEPTH
    ensures |r| == DEPTH && r[..|nodes|] == nodes
    ensures forall n :: |nodes| <= n < DEPTH ==> r[n] == []
  {
    r := nodes;
    while |r| < DEPTH
      invariant |nodes| <= |r| <= DEPTH && r[..|nodes|] == nodes
      invariant forall n :: |nodes| <= n < |r| ==> r[n] == []
      decreases DEPTH - |r|
    {
      r := r + [[]];
    }
  }

  // ---------------------------------------------------------------------------
  // Paths
  // ---------------------------------------------------------------------------

  /** The index of leaf i's ancestor n levels up. */
  function Ancestor(i: nat, n: nat): nat {
    if n == 0 then i else Ancestor(i, n - 1) / 2
  }

  function SiblingOf(level: seq<Digest>, idx: nat): Digest {
    var sib := if idx % 2 == 0 then idx + 1 else idx - 1;
    if sib < |level| then level[sib] else Zero()
  }

  /** The number of levels get_path visits: up to the first empty one. */
  function PathLength(count: nat): nat {
    Min(Height(count) + 1, DEPTH)
  }

  /** The siblings on the first n levels. */
  function Siblings(h: Hasher, leaves: seq<Digest>, i: nat, n: nat): (s: seq<Digest>)
    ensures |s| == n
  {
    if n == 0 then []
    else Siblings(h, leaves, i, n - 1) + [SiblingOf(LevelAt(h, leaves, n - 1), Ancestor(i, n - 1))]
  }

  lemma {:induction false} SiblingAt(h: Hasher, leaves: seq<Digest>, i: nat, n: nat, k: nat)
    requires k < n
    ensures Siblings(h, leaves, i, n)[k] == SiblingOf(LevelAt(h, leaves, k), Ancestor(i, k))
  {
    hide SiblingOf, LevelAt, Ancestor;
    if k < n - 1 {
      SiblingAt(h, leaves, i, n - 1, k);
    }
  }

  lemma LevelNonEmpty(h: Hasher, leaves: seq<Digest>, n: nat)
    requires leaves != []
    ensures LevelAt(h, leaves, n) != []
  {
    LevelSize(h, leaves, n);
    HalvedHeight(|leaves|, n);
  }

  lemma StoredNode(h: Hasher, t: MerkleTree, level: nat)
    requires IsTreeOf(h, t.leaves, t) && level < DEPTH
    ensures |t.nodes| == DEPTH && t.nodes[level] == StoredLevel(h, t.leaves, level)
  {
    hide StoredLevel;
  }

  /** The state of the path loop before it visits a level. */
  ghost predicate OnPath(
    h: Hasher, leaves: seq<Digest>, i: nat, level: nat, idx: nat, siblings: seq<Digest>)
  {
    && level <= DEPTH && level <= Height(|leaves|) + 1
    && idx == Ancestor(i, level) && siblings == Siblings(h, leaves, i, level)
  }

  lemma OnPathStart(h: Hasher, leaves: seq<Digest>, i: nat)
    ensures OnPath(h, leaves, i, 0, i, [])
  {
  }

  lemma OnPathStep(h: Hasher, t: MerkleTree, i: nat, level: nat, idx: nat, siblings: seq<Digest>)
    requires IsTreeOf(h, t.leaves, t) && OnPath(h, t.leaves, i, level, idx, siblings)
    requires level < DEPTH && |t.nodes[level]| > 0
    ensures OnPath(
      h, t.leaves, i, level + 1, idx / 2, siblings + [SiblingOf(t.nodes[level], idx)])
  {
    hide LevelAt, Height, SiblingOf, IsTreeOf;
    StoredNode(h, t, level);
  }

  lemma OnPathEnd(h: Hasher, t: MerkleTree, i: nat, level: nat, idx: nat, siblings: seq<Digest>)
    requires IsTreeOf(h, t.leaves, t) && OnPath(h, t.leaves, i, level, idx, siblings)
    requires t.leaves != [] && (level == DEPTH || |t.nodes[level]| == 0)
    ensures siblings == Siblings(h, t.leaves, i, PathLength(|t.leaves|))
  {
    hide LevelAt, Height, SiblingOf, IsTreeOf;
    if level < DEPTH {
      StoredNode(h, t, level);
      LevelNonEmpty(h, t.leaves, level);
    }
  }

  method GetPath(t: MerkleTree, leafIndex: nat, ghost h: Hasher) returns (path: Option<seq<Digest>>)
    requires IsTreeOf(h, t.leaves, t)
    ensures leafIndex >= |t.leaves| ==> path == None
    ensures leafIndex < |t.leaves| ==>
      path == Some(Siblings(h, t.leaves, leafIndex, PathLength(|t.leaves|)))
  {
    if leafIndex >= |t.leaves| {
      return None;
    }
    StoredNode(h, t, 0);
    hide *;
    var siblings: seq<Digest> := [];
    var idx := leafIndex;
    var level := 0;
    OnPathStart(h, t.leaves, leafIndex);
    while level < |t.nodes| && level < DEPTH && |t.nodes[level]| > 0
      invariant level <= DEPTH && OnPath(h, t.leaves, leafIndex, level, idx, siblings)
    {
      OnPathStep(h, t, leafIndex, level, idx, siblings);
      siblings := siblings + [SiblingOf(t.nodes[level], idx)];
      idx := idx / 2;
      level := level + 1;
    }
    OnPathEnd(h, t, leafIndex, level, idx, siblings);
    path := Some(siblings);
  }

  // ---------------------------------------------------------------------------
  // Proofs
  // ---------------------------------------------------------------------------

  datatype MerkleProof = MerkleProof(
    leaf: seq<byte>, siblings: seq<seq<byte>>, positions: seq<u64>, leafIndex: u64)

  /** What is hashed at step n: position 0 puts the sibling on the left; no position means zeros. */
  function StepInput(p: MerkleProof, current: seq<byte>, n: nat): seq<byte>
    requires n < |p.siblings|
  {
    if n >= |p.positions| then current + Zero()
    else if p.positions[n] == 0 then p.siblings[n] + current
    else current + p.siblings[n]
  }

  /** The value recomputed after n siblings. */
  function Climb(h: Hasher, p: MerkleProof, n: nat): seq<byte>
    requires n <= |p.siblings|
  {
    if n == 0 then p.leaf else h(StepInput(p, Climb(h, p, n - 1), n - 1))
  }

  function Verifies(h: Hasher, p: MerkleProof, root: seq<byte>): bool {
    p.leaf != [] && root != [] && Climb(h, p, |p.siblings|) == root
  }

  method ComputeRoot(h: Hasher, p: MerkleProof) returns (current: seq<byte>)
    ensures current == Climb(h, p, |p.siblings|)
  {
    current := p.leaf;
    var i := 0;
    while i < |p.siblings|
      invariant i <= |p.siblings| && current == Climb(h, p, i)
    {
      if i < |p.positions| {
        if p.positions[i] == 0 {
          current := HashPair(h, p.siblings[i], current);
        } else {
          current := HashPair(h, current, p.siblings[i]);
        }
      } else {
        current := HashPair(h, current, Zero());
      }
      i := i + 1;
    }
  }

  method Verify(h: Hasher, p: MerkleProof, root: seq<byte>) returns (ok: bool)
    ensures ok <==> Verifies(h, p, root)
  {
    if |p.leaf| == 0 || |root| == 0 {
      return false;
    }
    var computed := ComputeRoot(h, p);
    if |computed| != |root| {
      return false;
    }
    ok := computed == root;
  }

  /** Position n says on which side leaf i's ancestor stands: 0 when it is the right child. */
  function Parities(i: nat, n: nat): (s: seq<u64>)
    ensures |s| == n
  {
    if n == 0 then [] else Parities(i, n - 1) + [1 - Ancestor(i, n - 1) % 2]
  }

  lemma {:induction false} ParityAt(i: nat, n: nat, k: nat)
    requires k < n
    ensures Parities(i, n)[k] == 1 - Ancestor(i, k) % 2
  {
    hide Ancestor;
    if k < n - 1 {
      ParityAt(i, n - 1, k);
    }
  }

  /** The proof made of the path's first n siblings. */
  function PathProof(h: Hasher, leaves: seq<Digest>, i: u64, n: nat): MerkleProof
    requires i < |leaves|
  {
    MerkleProof(leaves[i], Siblings(h, leaves, i, n), Parities(i, n), i)
  }

  // ---------------------------------------------------------------------------
  // Completeness
  // ---------------------------------------------------------------------------

  lemma {:induction false} AncestorInLevel(h: Hasher, leaves: seq<Digest>, i: nat, n: nat)
    requires i < |leaves|
    ensures Ancestor(i, n) < |LevelAt(h, leaves, n)|
  {
    if n > 0 {
      AncestorInLevel(h, leaves, i, n - 1);
    }
  }

  lemma PathProofAt(h: Hasher, leaves: seq<Digest>, i: u64, m: nat, k: nat)
    requires i < |leaves| && k < m
    ensures var p := PathProof(h, leaves, i, m);
            && |p.siblings| == m && |p.positions| == m
            && p.siblings[k] == SiblingOf(LevelAt(h, leaves, k), Ancestor(i, k))
            && p.positions[k] == 1 - Ancestor(i, k) % 2
  {
    hide LevelAt, SiblingOf, Ancestor, Siblings, Parities;
    SiblingAt(h, leaves, i, m, k);
    ParityAt(i, m, k);
  }

  lemma AncestorStep(i: nat, n: nat)
    requires n > 0
    ensures Ancestor(i, n) == Ancestor(i, n - 1) / 2
  {
  }

  lemma ClimbZero(h: Hasher, leaves: seq<Digest>, i: u64, m: nat)
    requires i < |leaves|
    ensures |PathProof(h, leaves, i, m).siblings| == m
    ensures Climb(h, PathProof(h, leaves, i, m), 0) == leaves[i]
    ensures LevelAt(h, leaves, 0) == leaves && Ancestor(i, 0) == i
  {
  }

  /** Climbing a path passes through the tree's own nodes. */
  lemma {:induction false} ClimbFollowsTree(h: Hasher, leaves: seq<Digest>, i: u64, m: nat, n: nat)
    requires i < |leaves| && n <= m
    ensures |PathProof(h, leaves, i, m).siblings| == m
    ensures Ancestor(i, n) < |LevelAt(h, leaves, n)|
    ensures Climb(h, PathProof(h, leaves, i, m), n) == LevelAt(h, leaves, n)[Ancestor(i, n)]
  {
    hide *;
    AncestorInLevel(h, leaves, i, n);
    ClimbZero(h, leaves, i, m);
    if n > 0 {
      ClimbFollowsTree(h, leaves, i, m, n - 1);
      var level, a := LevelAt(h, leaves, n - 1), Ancestor(i, n - 1);
      var p := PathProof(h, leaves, i, m);
      PathProofAt(h, leaves, i, m, n - 1);
      StepIsParent(level, a, p, n - 1);
      ClimbStep(h, p, n);
      LevelStep(h, leaves, n);
      AncestorStep(i, n);
    }
  }

  lemma ClimbStep(h: Hasher, p: MerkleProof, n: nat)
    requires 0 < n <= |p.siblings|
    ensures Climb(h, p, n) == h(StepInput(p, Climb(h, p, n - 1), n - 1))
  {
  }

  lemma LevelStep(h: Hasher, leaves: seq<Digest>, n: nat)
    requires n > 0
    ensures LevelAt(h, leaves, n) == NextLevel(h, LevelAt(h, leaves, n - 1))
  {
  }

  lemma StepIsParent(level: seq<Digest>, a: nat, p: MerkleProof, n: nat)
    requires a < |level| && n < |p.siblings| && n < |p.positions|
    requires p.siblings[n] == SiblingOf(level, a) && p.positions[n] == 1 - a % 2
    ensures StepInput(p, level[a], n) == ParentInput(level, a / 2)
  {
    if a % 2 == 0 {
      assert a == 2 * (a / 2);
    } else {
      assert a == 2 * (a / 2) + 1;
    }
  }

  /** Within the depth bound the root's level holds the root alone. */
  lemma RootLevel(h: Hasher, leaves: seq<Digest>, t: MerkleTree)
    requires IsTreeOf(h, leaves, t) && Height(|leaves|) <= DEPTH && leaves != []
    ensures LevelAt(h, leaves, Height(|leaves|)) == [t.root]
  {
    hide LevelAt, Height, StoredLevel;
    LevelSize(h, leaves, Height(|leaves|));
    HalvedHeight(|leaves|, Height(|leaves|));
  }

  lemma SiblingsPrefix(h: Hasher, leaves: seq<Digest>, i: nat, n: nat, m: nat)
    requires n <= m
    ensures Siblings(h, leaves, i, n) == Siblings(h, leaves, i, m)[..n]
  {
    hide *;
    forall k | 0 <= k < n
      ensures Siblings(h, leaves, i, n)[k] == Siblings(h, leaves, i, m)[k]
    {
      SiblingAt(h, leaves, i, n, k);
      SiblingAt(h, leaves, i, m, k);
    }
  }

  lemma VerifiesIff(h: Hasher, p: MerkleProof, root: Digest)
    requires |p.leaf| == HASH_SIZE
    ensures Verifies(h, p, root) <==> Climb(h, p, |p.siblings|) == root
  {
  }

  /**
   Completeness: within the depth bound, every leaf with the path siblings below the root level
   recomputes the root that the builder stored.
   */
  lemma PathVerifies(h: Hasher, leaves: seq<Digest>, t: MerkleTree, i: u64)
    requires IsTreeOf(h, leaves, t) && i < |leaves| && Height(|leaves|) <= DEPTH
    ensures Height(|leaves|) <= PathLength(|leaves|)
    ensures Siblings(h, leaves, i, Height(|leaves|))
         == Siblings(h, leaves, i, PathLength(|leaves|))[..Height(|leaves|)]
    ensures Verifies(h, PathProof(h, leaves, i, Height(|leaves|)), t.root)
  {
    hide LevelAt, Climb, IsTreeOf, Height, Siblings, Parities, Verifies;
    var n := Height(|leaves|);
    RootLevel(h, leaves, t);
    ClimbFollowsTree(h, leaves, i, n, n);
    VerifiesIff(h, PathProof(h, leaves, i, n), t.root);
    SiblingsPrefix(h, leaves, i, n, PathLength(|leaves|));
  }

  /** The depth bound in terms of the number of leaves. */
  lemma {:induction false} HeightWithin(count: nat, n: nat)
    ensures Height(count) <= n <==> count <= Pow2(n)
  {
    if count > 1 && n > 0 {
      HeightWithin((count + 1) / 2, n - 1);
    }
  }

  /**
   get_path also emits a sibling for the stored root level: zeros. With it the fold ends in one
   more hash, so the whole path verifies exactly when the tree is so deep that its root level is
   not stored, or the root happens to be its own parent.
   */
  lemma WholePathVerifies(h: Hasher, leaves: seq<Digest>, t: MerkleTree, i: u64)
    requires IsTreeOf(h, leaves, t) && i < |leaves| && Height(|leaves|) <= DEPTH
    ensures Verifies(h, PathProof(h, leaves, i, PathLength(|leaves|)), t.root)
       <==> Height(|leaves|) == DEPTH || h(t.root + Zero()) == t.root
  {
    hide LevelAt, Climb, IsTreeOf, Height, Siblings, Parities, Verifies, Zero;
    var n := Height(|leaves|);
    if n == DEPTH {
      PathVerifies(h, leaves, t, i);
    } else {
      var p := PathProof(h, leaves, i, n + 1);
      RootLevel(h, leaves, t);
      ClimbFollowsTree(h, leaves, i, n + 1, n);
      PathProofAt(h, leaves, i, n + 1, n);
      assert Ancestor(i, n) == 0;
      assert p.siblings[n] == Zero() && p.positions[n] == 1;
      ClimbStep(h, p, n + 1);
      VerifiesIff(h, p, t.root);
    }
  }

  // ---------------------------------------------------------------------------
  // Soundness and binding
  // ---------------------------------------------------------------------------

  /** Same number of siblings, and each on the same side. */
  predicate SameShape(p: MerkleProof, q: MerkleProof) {
    && |p.siblings| == |q.siblings|
    && |p.positions| >= |p.siblings| && |q.positions| >= |q.siblings|
    && forall n :: 0 <= n < |p.siblings| ==> (p.positions[n] == 0 <==> q.positions[n] == 0)
  }

  lemma ClimbSize(h: Hasher, p: MerkleProof, n: nat)
    requires n <= |p.siblings| && |p.leaf| == HASH_SIZE
    ensures |Climb(h, p, n)| == HASH_SIZE
  {
  }

  lemma StepInputInjective(p: MerkleProof, q: MerkleProof, c: seq<byte>, d: seq<byte>, n: nat)
    requires SameShape(p, q) && n < |p.siblings| && |c| == |d|
    requires StepInput(p, c, n) == StepInput(q, d, n)
    ensures c == d && p.siblings[n] == q.siblings[n]
  {
    var x, y := StepInput(p, c, n), StepInput(q, d, n);
    if p.positions[n] == 0 {
      var k := |x| - |c|;
      assert p.siblings[n] == x[..k] && c == x[k..];
      assert q.siblings[n] == y[..k] && d == y[k..];
    } else {
      assert c == x[..|c|] && p.siblings[n] == x[|c|..];
      assert d == y[..|c|] && q.siblings[n] == y[|c|..];
    }
  }

  /** The inputs two proofs hash at step k collide. */
  predicate StepsCollide(h: Hasher, p: MerkleProof, q: MerkleProof, k: nat) {
    && k < |p.siblings| && k < |q.siblings|
    && Collides(h, StepInput(p, Climb(h, p, k), k), StepInput(q, Climb(h, q, k), k))
  }

  /** The same leaf and the same first n siblings. */
  predicate AgreeUpTo(p: MerkleProof, q: MerkleProof, n: nat) {
    && p.leaf == q.leaf && n <= |p.siblings| && n <= |q.siblings|
    && forall k :: 0 <= k < n ==> p.siblings[k] == q.siblings[k]
  }

  /**
   Two proofs of one shape that reach the same value are the same proof, unless two inputs they
   hash at the same step collide.
   */
  lemma {:induction false} ClimbsAgree(h: Hasher, p: MerkleProof, q: MerkleProof, n: nat)
    requires SameShape(p, q) && n <= |p.siblings|
    requires |p.leaf| == HASH_SIZE && |q.leaf| == HASH_SIZE
    requires Climb(h, p, n) == Climb(h, q, n)
    ensures AgreeUpTo(p, q, n) || CollideBelow(h, p, q, n)
  {
    ShapeSizes(p, q);
    hide *;
    CollideMore(h, p, q, n);
    if n == 0 {
      AgreeStart(h, p, q);
    } else {
      StepsAgree(h, p, q, n);
      if !StepsCollide(h, p, q, n - 1) {
        ClimbsAgree(h, p, q, n - 1);
        if AgreeUpTo(p, q, n - 1) {
          AgreeMore(p, q, n);
        }
      }
    }
  }

  /** At one of the first n steps they collide. */
  predicate CollideBelow(h: Hasher, p: MerkleProof, q: MerkleProof, n: nat) {
    exists k :: 0 <= k < n && StepsCollide(h, p, q, k)
  }

  lemma CollideMore(h: Hasher, p: MerkleProof, q: MerkleProof, n: nat)
    ensures n > 0 && CollideBelow(h, p, q, n - 1) ==> CollideBelow(h, p, q, n)
    ensures n > 0 && StepsCollide(h, p, q, n - 1) ==> CollideBelow(h, p, q, n)
  {
    hide StepsCollide;
  }

  lemma ShapeSizes(p: MerkleProof, q: MerkleProof)
    requires SameShape(p, q)
    ensures |p.siblings| == |q.siblings|
  {
  }

  /** One step back: the values before it and its siblings are equal, or its inputs collide. */
  lemma StepsAgree(h: Hasher, p: MerkleProof, q: MerkleProof, n: nat)
    requires SameShape(p, q) && 0 < n <= |p.siblings| && |p.siblings| == |q.siblings|
    requires |p.leaf| == HASH_SIZE && |q.leaf| == HASH_SIZE
    requires Climb(h, p, n) == Climb(h, q, n)
    ensures (Climb(h, p, n - 1) == Climb(h, q, n - 1) && p.siblings[n - 1] == q.siblings[n - 1])
         || StepsCollide(h, p, q, n - 1)
  {
    hide *;
    var c, d := Climb(h, p, n - 1), Climb(h, q, n - 1);
    ClimbSize(h, p, n - 1);
    ClimbSize(h, q, n - 1);
    ClimbStep(h, p, n);
    ClimbStep(h, q, n);
    if StepInput(p, c, n - 1) == StepInput(q, d, n - 1) {
      StepInputInjective(p, q, c, d, n - 1);
    } else {
      StepsCollideIntro(h, p, q, n - 1);
    }
  }

  lemma AgreeStart(h: Hasher, p: MerkleProof, q: MerkleProof)
    requires Climb(h, p, 0) == Climb(h, q, 0)
    ensures AgreeUpTo(p, q, 0)
  {
  }

  lemma AgreeMore(p: MerkleProof, q: MerkleProof, n: nat)
    requires 0 < n <= |p.siblings| && |p.siblings| == |q.siblings|
    requires AgreeUpTo(p, q, n - 1) && p.siblings[n - 1] == q.siblings[n - 1]
    ensures AgreeUpTo(p, q, n)
  {
  }

  lemma StepsCollideIntro(h: Hasher, p: MerkleProof, q: MerkleProof, k: nat)
    requires k < |p.siblings| && k < |q.siblings|
    requires var x, y := StepInput(p, Climb(h, p, k), k), StepInput(q, Climb(h, q, k), k);
             x != y && h(x) == h(y)
    ensures StepsCollide(h, p, q, k)
  {
    hide StepInput, Climb;
  }

  lemma CollidesIntro(h: Hasher, x: seq<byte>, y: seq<byte>)
    requires x != y && h(x) == h(y)
    ensures Collides(h, x, y)
  {
  }

  /**
   Soundness: a proof with a 32-byte leaf, as many siblings as the tree is high and each on the
   side the parities of i say, whatever else its positions hold, verifies against the root only if
   its leaf is leaf i and its siblings are the path's, or an input it hashes collides with the one
   the tree hashed there.
   */
  lemma OnlyThePathVerifies(h: Hasher, leaves: seq<Digest>, t: MerkleTree, p: MerkleProof, i: u64)
    requires IsTreeOf(h, leaves, t) && i < |leaves| && Height(|leaves|) <= DEPTH
    requires |p.leaf| == HASH_SIZE && SameShape(p, PathProof(h, leaves, i, Height(|leaves|)))
    requires Verifies(h, p, t.root)
    ensures var q := PathProof(h, leaves, i, Height(|leaves|));
            (p.leaf == leaves[i] && p.siblings == q.siblings)
            || exists k :: 0 <= k < |p.siblings| && StepsCollide(h, p, q, k)
  {
    hide LevelAt, Climb, IsTreeOf, Height, Siblings, Parities, Verifies, StepsCollide;
    var n := Height(|leaves|);
    var q := PathProof(h, leaves, i, n);
    PathVerifies(h, leaves, t, i);
    VerifiesIff(h, p, t.root);
    VerifiesIff(h, q, t.root);
    ClimbsAgree(h, p, q, n);
  }

  /** Different levels with equal parents: two parents' inputs collide. */
  lemma FindCollision(h: Hasher, a: seq<Digest>, b: seq<Digest>) returns (j: nat)
    requires |a| == |b| && NextLevel(h, a) == NextLevel(h, b) && a != b
    ensures 2 * j < |a| && Collides(h, ParentInput(a, j), ParentInput(b, j))
  {
    hide NextLevel, Collides;
    var k :| 0 <= k < |a| && a[k] != b[k];
    j := k / 2;
    var x, y := ParentInput(a, j), ParentInput(b, j);
    assert NextLevel(h, a)[j] == h(x) && NextLevel(h, b)[j] == h(y);
    assert a[2 * j] == x[..32] && RightOf(a, j) == x[32..];
    assert b[2 * j] == y[..32] && RightOf(b, j) == y[32..];
    CollidesIntro(h, x, y);
  }

  /** The inputs two trees hash for node j of level n collide. */
  predicate NodesCollide(h: Hasher, a: seq<Digest>, b: seq<Digest>, n: nat, j: nat) {
    && 2 * j < |LevelAt(h, a, n)| && 2 * j < |LevelAt(h, b, n)|
    && Collides(h, ParentInput(LevelAt(h, a, n), j), ParentInput(LevelAt(h, b, n), j))
  }

  lemma NodesCollideIntro(h: Hasher, a: seq<Digest>, b: seq<Digest>, n: nat, j: nat)
    requires |LevelAt(h, a, n)| == |LevelAt(h, b, n)| && 2 * j < |LevelAt(h, a, n)|
    requires Collides(h, ParentInput(LevelAt(h, a, n), j), ParentInput(LevelAt(h, b, n), j))
    ensures NodesCollide(h, a, b, n, j)
  {
    hide LevelAt, Collides, ParentInput;
  }

  lemma {:induction false} LevelsAgree(h: Hasher, a: seq<Digest>, b: seq<Digest>, n: nat)
    requires |a| == |b| && LevelAt(h, a, n) == LevelAt(h, b, n)
    ensures a == b || exists k: nat, j: nat :: k < n && NodesCollide(h, a, b, k, j)
  {
    hide *;
    if n == 0 {
      LevelZero(h, a);
      LevelZero(h, b);
    } else {
      var x, y := LevelAt(h, a, n - 1), LevelAt(h, b, n - 1);
      LevelSize(h, a, n - 1);
      LevelSize(h, b, n - 1);
      LevelStep(h, a, n);
      LevelStep(h, b, n);
      if x == y {
        LevelsAgree(h, a, b, n - 1);
      } else {
        var j := FindCollision(h, x, y);
        NodesCollideIntro(h, a, b, n - 1, j);
      }
    }
  }

  /**
   Binding: for a fixed leaf count within the depth bound, equal roots mean equal leaves, or two
   nodes in the same place of the two trees hash colliding inputs.
   */
  lemma RootBindsLeaves(h: Hasher, a: seq<Digest>, b: seq<Digest>, s: MerkleTree, t: MerkleTree)
    requires IsTreeOf(h, a, s) && IsTreeOf(h, b, t)
    requires |a| == |b| && Height(|a|) <= DEPTH && s.root == t.root
    ensures a == b || exists n: nat, j: nat :: n < Height(|a|) && NodesCollide(h, a, b, n, j)
  {
    hide LevelAt, IsTreeOf, Height, NodesCollide;
    if a != [] {
      RootLevel(h, a, s);
      RootLevel(h, b, t);
      LevelsAgree(h, a, b, Height(|a|));
    }
  }

  /** What one sibling adds: hashed on its side, or left out for zeros where no position says the side. */
  lemma ClimbWritten(h: Hasher, p: MerkleProof, n: nat)
    requires n < |p.siblings|
    ensures var c := Climb(h, p, n);
            && (n < |p.positions| && p.positions[n] == 0 ==> Climb(h, p, n + 1) == h(p.siblings[n] + c))
            && (n < |p.positions| && p.positions[n] != 0 ==> Climb(h, p, n + 1) == h(c + p.siblings[n]))
            && (n >= |p.positions| ==> Climb(h, p, n + 1) == h(c + seq(32, i => 0)))
  {
    ClimbStep(h, p, n + 1);
    assert Zero() == seq(32, i => 0);
    hide Climb, Zero;
  }

  /** So without positions the siblings themselves do not matter, only how many there are. */
  lemma {:induction false} UnplacedIgnored(h: Hasher, p: MerkleProof, q: MerkleProof, n: nat)
    requires p.leaf == q.leaf && p.positions == q.positions == [] && n <= |p.siblings| && n <= |q.siblings|
    ensures Climb(h, p, n) == Climb(h, q, n)
    decreases n
  {
    if n > 0 {
      UnplacedIgnored(h, p, q, n - 1);
    }
  }

  /** The depth bound in leaves. */
  lemma DepthBound(count: nat)
    ensures Height(count) <= DEPTH <==> count <= 0x1_0000_0000
  {
    HeightWithin(count, DEPTH);
    DepthValue();
  }

  lemma DepthValue()
    ensures Pow2(32) == 0x1_0000_0000
  {
    assert Pow2(4) == 16;
    assert Pow2(8) == 256;
    assert Pow2(12) == 4096;
    assert Pow2(16) == 65536;
    assert Pow2(20) == 0x10_0000;
    assert Pow2(24) == 0x100_0000;
    assert Pow2(28) == 0x1000_0000;
  }

  // ---------------------------------------------------------------------------
  // The leaves as they are given
  // ---------------------------------------------------------------------------

  /** Byte k of a leaf, zero past its end. */
  function Padded(leaf: seq<byte>, k: nat): byte {
    if k < |leaf| then leaf[k] else 0
  }

  lemma NormalizeAt(leaf: seq<byte>, k: nat)
    requires k < HASH_SIZE
    ensures Normalize(leaf)[k] == Padded(leaf, k)
  {
  }

  lemma NormalizeFull(leaf: seq<byte>)
    ensures |leaf| == HASH_SIZE ==> Normalize(leaf) == leaf
  {
  }

  /** Leaves the tree cannot tell apart: their first 32 bytes, zero-padded, are the same. */
  predicate SamePadded(a: seq<byte>, b: seq<byte>) {
    forall k :: 0 <= k < HASH_SIZE ==> Padded(a, k) == Padded(b, k)
  }

  lemma NormalizeSame(a: seq<byte>, b: seq<byte>)
    ensures Normalize(a) == Normalize(b) <==> SamePadded(a, b)
    ensures |a| == HASH_SIZE && |b| == HASH_SIZE && SamePadded(a, b) ==> a == b
  {
    forall k | 0 <= k < HASH_SIZE
      ensures Normalize(a)[k] == Padded(a, k) && Normalize(b)[k] == Padded(b, k)
    {
      NormalizeAt(a, k);
      NormalizeAt(b, k);
    }
    NormalizeFull(a);
    NormalizeFull(b);
    hide Normalize, Padded;
    if SamePadded(a, b) {
      assert Normalize(a) == Normalize(b);
    } else {
      var k :| 0 <= k < HASH_SIZE && Padded(a, k) != Padded(b, k);
      assert Normalize(a)[k] != Normalize(b)[k];
    }
  }

  predicate AllSamePadded(a: seq<seq<byte>>, b: seq<seq<byte>>)
    requires |a| == |b|
  {
    forall i :: 0 <= i < |a| ==> SamePadded(a[i], b[i])
  }

  predicate AllFull(leaves: seq<seq<byte>>) {
    forall i :: 0 <= i < |leaves| ==> |leaves[i]| == HASH_SIZE
  }

  lemma NormalizeAllSame(a: seq<seq<byte>>, b: seq<seq<byte>>)
    requires |a| == |b|
    ensures NormalizeAll(a) == NormalizeAll(b) <==> AllSamePadded(a, b)
    ensures AllFull(a) && AllFull(b) && AllSamePadded(a, b) ==> a == b
  {
    hide Normalize, NormalizeAll, SamePadded;
    forall i | 0 <= i < |a|
      ensures NormalizeAll(a)[i] == NormalizeAll(b)[i] <==> SamePadded(a[i], b[i])
      ensures |a[i]| == HASH_SIZE && |b[i]| == HASH_SIZE && SamePadded(a[i], b[i]) ==> a[i] == b[i]
    {
      NormalizeSame(a[i], b[i]);
    }
  }

  /**
   Of two lists of one length, equal roots mean leaves that agree on their first 32 bytes,
   zero-padded, and so equal lists if all leaves have 32 bytes; or two nodes collide. Leaves that
   agree so always give one root.
   */
  lemma RootBindsRaw(h: Hasher, a: seq<seq<byte>>, b: seq<seq<byte>>, s: MerkleTree, t: MerkleTree)
    requires IsTreeOf(h, NormalizeAll(a), s) && IsTreeOf(h, NormalizeAll(b), t)
    requires |a| == |b| && Height(|a|) <= DEPTH
    ensures AllSamePadded(a, b) ==> s.root == t.root
    ensures s.root == t.root ==> AllSamePadded(a, b) || TreesCollide(h, NormalizeAll(a), NormalizeAll(b))
    ensures s.root == t.root && AllFull(a) && AllFull(b) ==>
      a == b || TreesCollide(h, NormalizeAll(a), NormalizeAll(b))
  {
    NormalizeAllSame(a, b);
    hide LevelAt, Height, NodesCollide, NormalizeAll, AllSamePadded, AllFull, StoredLevel;
    if s.root == t.root {
      RootBindsLeaves(h, NormalizeAll(a), NormalizeAll(b), s, t);
    }
  }

  ghost predicate TreesCollide(h: Hasher, a: seq<Digest>, b: seq<Digest>) {
    exists n: nat, j: nat :: n < Height(|a|) && NodesCollide(h, a, b, n, j)
  }

  /** A leaf of 32 bytes, as it was given, verifies against the root with the path's siblings. */
  lemma RawPathVerifies(h: Hasher, leaves: seq<seq<byte>>, t: MerkleTree, i: u64)
    requires IsTreeOf(h, NormalizeAll(leaves), t) && i < |leaves| && Height(|leaves|) <= DEPTH
    requires |leaves[i]| == HASH_SIZE
    ensures var p := PathProof(h, NormalizeAll(leaves), i, Height(|leaves|));
            Verifies(h, p.(leaf := leaves[i]), t.root)
  {
    PathVerifies(h, NormalizeAll(leaves), t, i);
    NormalizeFull(leaves[i]);
    hide IsTreeOf, Height, Siblings, Parities, Verifies, Normalize;
    var p := PathProof(h, NormalizeAll(leaves), i, Height(|leaves|));
    assert p.(leaf := leaves[i]) == p;
  }

  /** The roots of the smallest trees, written out. */
  lemma SmallRoots(h: Hasher, a: Digest, b: Digest, c: Digest, t: MerkleTree)
    ensures IsTreeOf(h, [], t) ==> t.root == seq(32, i => 0)
    ensures IsTreeOf(h, [a], t) ==> t.root == a
    ensures IsTreeOf(h, [a, b], t) ==> t.root == h(a + b)
    ensures IsTreeOf(h, [a, b, c], t) ==> t.root == h(h(a + b) + h(c + seq(32, i => 0)))
  {
    SmallHeights();
    LevelZero(h, []);
    LevelZero(h, [a]);
    TwoLeaves(h, a, b);
    ThreeLeaves(h, a, b, c);
    assert Zero() == seq(32, i => 0);
    hide LevelAt, Height, StoredLevel, Zero;
  }

  lemma TwoLeaves(h: Hasher, a: Digest, b: Digest)
    ensures LevelAt(h, [a, b], 1) == [h(a + b)]
  {
    LevelZero(h, [a, b]);
    LevelStep(h, [a, b], 1);
    hide LevelAt;
  }

  lemma ThreeLeaves(h: Hasher, a: Digest, b: Digest, c: Digest)
    ensures LevelAt(h, [a, b, c], 2) == [h(h(a + b) + h(c + Zero()))]
  {
    LevelZero(h, [a, b, c]);
    LevelStep(h, [a, b, c], 1);
    LevelStep(h, [a, b, c], 2);
    hide LevelAt, Zero;
    var next := NextLevel(h, [a, b, c]);
    assert next == [h(a + b), h(c + Zero())];
  }

  lemma SmallHeights()
    ensures Height(0) == Height(1) == 0 && Height(2) == 1 && Height(3) == 2
  {
  }
}

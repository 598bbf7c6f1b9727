/**
  The Merkle root of audit days and federation bundles: leaves are hashed, and while more than
  one digest is left the level is paired up, an odd last digest being paired with itself.
 */
module Merkle {
  import opened ByteStrings

  const DIGEST_BYTES: nat := 32

  type Digest = d: Bytes | |d| == DIGEST_BYTES witness seq(DIGEST_BYTES, _ => 0)

  type Hash = Bytes -> Digest

  // ---------- the loop's own levels ----------

  /** The last digest of an odd level is pushed again. */
  function Padded<T>(level: seq<T>): seq<T> {
    if |level| % 2 == 1 then level + [level[|level| - 1]] else level
  }

  /** The 64 bytes hashed for a pair. */
  function Pair(a: Digest, b: Digest): (pair: Bytes)
    ensures |pair| == 2 * DIGEST_BYTES && pair[..DIGEST_BYTES] == a && pair[DIGEST_BYTES..] == b
  {
    var first: Bytes, second: Bytes := a, b;
    first + second
  }

  /** Digests paired up and hashed. */
  function Paired(hash: Hash, level: seq<Digest>): (next: seq<Digest>)
    requires |level| % 2 == 0
    ensures |next| == |level| / 2
    ensures forall i :: 0 <= i < |next| ==> next[i] == hash(Pair(level[2 * i], level[2 * i + 1]))
  {
    seq(|level| / 2, i requires 0 <= i < |level| / 2 => hash(Pair(level[2 * i], level[2 * i + 1])))
  }

  // ---------- the tree the loop builds ----------

  /** A leaf input or a pair of subtrees. */
  datatype Tree = Leaf(input: Bytes) | Node(left: Tree, right: Tree)

  function DigestOf(hash: Hash, t: Tree): Digest {
    match t
    case Leaf(input) => hash(input)
    case Node(l, r) => hash(Pair(DigestOf(hash, l), DigestOf(hash, r)))
  }

  function PairedTrees(level: seq<Tree>): (next: seq<Tree>)
    requires |level| % 2 == 0
    ensures |next| == |level| / 2
    ensures forall i :: 0 <= i < |next| ==> next[i] == Node(level[2 * i], level[2 * i + 1])
  {
    seq(|level| / 2, i requires 0 <= i < |level| / 2 => Node(level[2 * i], level[2 * i + 1]))
  }

  function Join(level: seq<Tree>): Tree
    requires |level| > 0
    decreases |level|
  {
    if |level| == 1 then level[0] else Join(PairedTrees(Padded(level)))
  }

  lemma {:induction false} JoinOne(level: seq<Tree>)
    requires |level| == 1
    ensures Join(level) == level[0]
  {
  }

  lemma {:induction false} JoinStep(level: seq<Tree>)
    requires |level| > 1
    ensures 0 < |PairedTrees(Padded(level))| < |level|
    ensures Join(level) == Join(PairedTrees(Padded(level)))
  {
  }

  function Leaves(inputs: seq<Bytes>): seq<Tree> {
    seq(|inputs|, i requires 0 <= i < |inputs| => Leaf(inputs[i]))
  }

  /** The one tree over a list of leaf inputs. */
  function TreeOf(inputs: seq<Bytes>): Tree
    requires |inputs| > 0
  {
    Join(Leaves(inputs))
  }

  // ---------- the same tree, read from the top ----------

  function Pow2(k: nat): (p: nat)
    ensures p > 0
  {
    if k == 0 then 1 else 2 * Pow2(k - 1)
  }

  /** The subtree of the given height from leaf `lo` on: where the list ends, the left half stands twice. */
  function Subtree(inputs: seq<Bytes>, lo: nat, height: nat): Tree
    requires lo < |inputs|
    decreases height
  {
    if height == 0 then Leaf(inputs[lo])
    else
      var left := Subtree(inputs, lo, height - 1);
      var middle := lo + Pow2(height - 1);
      Node(left, if middle < |inputs| then Subtree(inputs, middle, height - 1) else left)
  }

  /** `j` blocks of `p` leaves. */
  function Blocks(j: nat, p: nat): nat {
    if j == 0 then 0 else Blocks(j - 1, p) + p
  }

  lemma {:induction false} BlocksMonotone(a: nat, b: nat, p: nat)
    requires a <= b
    ensures Blocks(a, p) <= Blocks(b, p)
    decreases b - a
  {
    if a < b {
      BlocksMonotone(a, b - 1, p);
    }
  }

  lemma {:induction false} BlocksDouble(j: nat, p: nat)
    ensures Blocks(j, 2 * p) == Blocks(2 * j, p)
  {
    if j > 0 {
      BlocksDouble(j - 1, p);
      assert Blocks(2 * j, p) == Blocks(2 * j - 2, p) + p + p;
    }
  }

  /** Blocks of `p` leaves cover `n` leaves, the last one not in vain. */
  ghost predicate Covers(n: nat, p: nat, width: nat) {
    0 < width && Blocks(width - 1, p) < n <= Blocks(width, p)
  }

  /** Block `j` starts inside the list exactly when it is one of the `width`. */
  lemma {:induction false} CoversStart(n: nat, p: nat, width: nat, j: nat)
    requires Covers(n, p, width)
    ensures Blocks(j, p) < n <==> j < width
  {
    if j < width {
      BlocksMonotone(j, width - 1, p);
    } else {
      BlocksMonotone(width, j, p);
    }
  }

  lemma {:induction false} CoversHalf(n: nat, p: nat, width: nat)
    requires Covers(n, p, width) && width > 1
    ensures Covers(n, 2 * p, (width + 1) / 2)
  {
    var half := (width + 1) / 2;
    BlocksDouble(half - 1, p);
    BlocksDouble(half, p);
    CoversStart(n, p, width, 2 * (half - 1));
    CoversStart(n, p, width, 2 * half);
  }

  /** The nodes the loop has after `height` rounds. */
  ghost predicate IsLevel(level: seq<Tree>, inputs: seq<Bytes>, height: nat) {
    && Covers(|inputs|, Pow2(height), |level|)
    && forall j :: 0 <= j < |level| ==>
         Blocks(j, Pow2(height)) < |inputs| && level[j] == Subtree(inputs, Blocks(j, Pow2(height)), height)
  }

  /** One round of pairing goes from one height to the next. */
  lemma {:induction false} LevelStep(level: seq<Tree>, inputs: seq<Bytes>, height: nat)
    requires |level| > 1 && IsLevel(level, inputs, height)
    ensures IsLevel(PairedTrees(Padded(level)), inputs, height + 1)
  {
    hide PairedTrees, Covers, Subtree, Blocks;
    var p := Pow2(height);
    var next := PairedTrees(Padded(level));
    CoversHalf(|inputs|, p, |level|);
    forall j | 0 <= j < |next|
      ensures Blocks(j, 2 * p) < |inputs| && next[j] == Subtree(inputs, Blocks(j, 2 * p), height + 1)
    {
      PairInPlace(level, inputs, height, j);
    }
  }

  /** Two neighbours, or the last one twice, make the subtree over both. */
  lemma {:induction false} PairInPlace(level: seq<Tree>, inputs: seq<Bytes>, height: nat, j: nat)
    requires |level| > 1 && IsLevel(level, inputs, height) && j < |PairedTrees(Padded(level))|
    ensures Blocks(j, 2 * Pow2(height)) < |inputs|
    ensures PairedTrees(Padded(level))[j] == Subtree(inputs, Blocks(j, 2 * Pow2(height)), height + 1)
  {
    hide PairedTrees, Covers;
    var p, width := Pow2(height), |level|;
    BlocksDouble(j, p);
    CoversStart(|inputs|, p, width, 2 * j);
    CoversStart(|inputs|, p, width, 2 * j + 1);
    assert Blocks(2 * j + 1, p) == Blocks(2 * j, p) + p;
  }

  lemma {:induction false} JoinLevels(level: seq<Tree>, inputs: seq<Bytes>, height: nat) returns (top: nat)
    requires IsLevel(level, inputs, height)
    ensures top >= height && |inputs| <= Pow2(top) && (top > height ==> Pow2(top - 1) < |inputs|)
    ensures Join(level) == Subtree(inputs, 0, top)
    decreases |level|
  {
    hide IsLevel, Subtree, Pow2, PairedTrees, Join;
    LevelExtent(level, inputs, height);
    if |level| == 1 {
      JoinOne(level);
      top := height;
    } else {
      JoinStep(level);
      LevelStep(level, inputs, height);
      top := JoinLevels(PairedTrees(Padded(level)), inputs, height + 1);
    }
  }

  /** A level of one node is the whole tree; a longer one means the list is longer than one node covers. */
  lemma {:induction false} LevelExtent(level: seq<Tree>, inputs: seq<Bytes>, height: nat)
    requires IsLevel(level, inputs, height)
    ensures |level| > 0
    ensures if |level| == 1 then |inputs| <= Pow2(height) && level[0] == Subtree(inputs, 0, height) else Pow2(height) < |inputs|
  {
    hide Subtree;
    var p := Pow2(height);
    assert Blocks(1, p) == Blocks(0, p) + p;
    if |level| > 1 {
      CoversStart(|inputs|, p, |level|, 1);
    }
  }

  lemma {:induction false} UnitBlocks(j: nat)
    ensures Blocks(j, 1) == j
  {
    if j > 0 {
      UnitBlocks(j - 1);
    }
  }

  /** Bottom-up pairing builds the top-down tree of the least height that covers the list. */
  lemma {:induction false} TreeIsSubtree(inputs: seq<Bytes>) returns (height: nat)
    requires |inputs| > 0
    ensures TreeOf(inputs) == Subtree(inputs, 0, height)
    ensures |inputs| <= Pow2(height) && (height > 0 ==> Pow2(height - 1) < |inputs|)
  {
    UnitBlocks(|inputs|);
    forall j | 0 <= j < |inputs| ensures Blocks(j, Pow2(0)) == j {
      UnitBlocks(j);
    }
    UnitBlocks(|inputs| - 1);
    height := JoinLevels(Leaves(inputs), inputs, 0);
  }

  // ---------- the loop ----------

  function Digests(hash: Hash, level: seq<Tree>): seq<Digest> {
    seq(|level|, i requires 0 <= i < |level| => DigestOf(hash, level[i]))
  }

  lemma {:induction false} DigestsOf(hash: Hash, level: seq<Tree>)
    ensures |Digests(hash, level)| == |level|
    ensures forall i :: 0 <= i < |level| ==> Digests(hash, level)[i] == DigestOf(hash, level[i])
  {
    hide DigestOf;
  }

  /** Pairing digests up gives the digests of the trees paired up. */
  lemma {:induction false} PairedDigests(hash: Hash, level: seq<Tree>)
    requires |level| > 0
    ensures Paired(hash, Padded(Digests(hash, level))) == Digests(hash, PairedTrees(Padded(level)))
  {
    PaddedDigests(hash, level);
    PairsOfDigests(hash, Padded(level));
  }

  lemma {:induction false} PaddedDigests(hash: Hash, level: seq<Tree>)
    requires |level| > 0
    ensures Padded(Digests(hash, level)) == Digests(hash, Padded(level))
  {
    hide DigestOf;
  }

  lemma {:induction false} PairsOfDigests(hash: Hash, level: seq<Tree>)
    requires |level| % 2 == 0
    ensures |Digests(hash, level)| == |level|
    ensures Paired(hash, Digests(hash, level)) == Digests(hash, PairedTrees(level))
  {
    hide Pair;
    var paired, digests := Paired(hash, Digests(hash, level)), Digests(hash, PairedTrees(level));
    forall i | 0 <= i < |paired| ensures paired[i] == digests[i] {
      assert PairedTrees(level)[i] == Node(level[2 * i], level[2 * i + 1]);
    }
  }

  /** The hashed inputs of a whole list, which is where the loop starts. */
  function HashedLeaves(hash: Hash, inputs: seq<Bytes>): seq<Digest> {
    seq(|inputs|, i requires 0 <= i < |inputs| => hash(inputs[i]))
  }

  const EMPTY_INPUT: Bytes := [97, 99, 109, 46, 97, 117, 100, 105, 116, 46, 101, 109, 112, 116, 121, 46, 118, 49]

  /** The root of any list; an empty one hashes a fixed text. */
  function MerkleRoot(hash: Hash, inputs: seq<Bytes>): Digest {
    if |inputs| == 0 then hash(EMPTY_INPUT) else DigestOf(hash, TreeOf(inputs))
  }

  /** One pass over a level of even length, pairing as it goes. */
  method PairUp(hash: Hash, level: seq<Digest>) returns (next: seq<Digest>)
    requires |level| % 2 == 0
    ensures next == Paired(hash, level)
  {
    next := [];
    var index := 0;
    while index < |level|
      invariant 0 <= index <= |level| && index % 2 == 0 && |next| == index / 2
      invariant forall i :: 0 <= i < |next| ==> next[i] == hash(Pair(level[2 * i], level[2 * i + 1]))
    {
      next := next + [hash(Pair(level[index], level[index + 1]))];
      index := index + 2;
    }
  }

  /** The level-by-level loop: from the digests of any row of trees, the digest of the tree they join into. */
  method Reduce(hash: Hash, leaves: seq<Digest>, ghost trees: seq<Tree>) returns (root: Digest)
    requires |trees| > 0 && leaves == Digests(hash, trees)
    ensures root == DigestOf(hash, Join(trees))
  {
    hide Join, DigestOf, Paired, PairedTrees, Digests;
    var level := leaves;
    ghost var row := trees;
    DigestsOf(hash, row);
    while |level| > 1
      invariant |level| == |row| > 0 && level == Digests(hash, row)
      invariant Join(row) == Join(trees)
      decreases |level|
    {
      PairedDigests(hash, row);
      JoinStep(row);
      row := PairedTrees(Padded(row));
      DigestsOf(hash, row);
      var even := level;
      if |level| % 2 == 1 {
        even := level + [level[|level| - 1]];
      }
      level := PairUp(hash, even);
    }
    JoinOne(row);
    DigestsOf(hash, row);
    root := level[0];
  }

  /** It computes the digest of the tree. */
  method ComputeRoot(hash: Hash, inputs: seq<Bytes>) returns (root: Digest)
    ensures root == MerkleRoot(hash, inputs)
  {
    if |inputs| == 0 {
      return hash(EMPTY_INPUT);
    }
    var level := HashedLeaves(hash, inputs);
    assert level == Digests(hash, Leaves(inputs));
    root := Reduce(hash, level, Leaves(inputs));
  }

  // ---------- what the hash is assumed to be ----------

  /** Every byte string hashed in computing a tree's digest. */
  ghost function Hashed(hash: Hash, t: Tree): set<Bytes> {
    match t
    case Leaf(input) => {input}
    case Node(l, r) => {Pair(DigestOf(hash, l), DigestOf(hash, r))} + Hashed(hash, l) + Hashed(hash, r)
  }

  ghost function LeafInputs(t: Tree): set<Bytes> {
    match t
    case Leaf(input) => {input}
    case Node(l, r) => LeafInputs(l) + LeafInputs(r)
  }

  ghost function PairInputs(hash: Hash, t: Tree): set<Bytes> {
    match t
    case Leaf(input) => {}
    case Node(l, r) => {Pair(DigestOf(hash, l), DigestOf(hash, r))} + PairInputs(hash, l) + PairInputs(hash, r)
  }

  /** No two of these byte strings share a digest. */
  ghost predicate CollisionFree(hash: Hash, inputs: set<Bytes>) {
    forall x, y :: x in inputs && y in inputs && hash(x) == hash(y) ==> x == y
  }

  /** No leaf input of either tree is a pair of digests of the other. */
  ghost predicate Separated(hash: Hash, t: Tree, u: Tree) {
    LeafInputs(t) !! PairInputs(hash, u) && LeafInputs(u) !! PairInputs(hash, t)
  }

  /** Equal digests come only from equal trees. */
  lemma {:induction false} DigestBinds(hash: Hash, t: Tree, u: Tree)
    requires CollisionFree(hash, Hashed(hash, t) + Hashed(hash, u)) && Separated(hash, t, u)
    requires DigestOf(hash, t) == DigestOf(hash, u)
    ensures t == u
    decreases t
  {
    TopHashed(hash, t);
    TopHashed(hash, u);
    match (t, u) {
      case (Node(l, r), Node(m, s)) =>
        var a, b := Pair(DigestOf(hash, l), DigestOf(hash, r)), Pair(DigestOf(hash, m), DigestOf(hash, s));
        assert a == b;
        assert DigestOf(hash, l) == a[..DIGEST_BYTES] == b[..DIGEST_BYTES] == DigestOf(hash, m);
        assert DigestOf(hash, r) == a[DIGEST_BYTES..] == b[DIGEST_BYTES..] == DigestOf(hash, s);
        DigestBinds(hash, l, m);
        DigestBinds(hash, r, s);
      case (Leaf(x), Leaf(y)) =>
      case (Leaf(x), Node(m, s)) =>
      case (Node(l, r), Leaf(y)) =>
    }
  }

  // ---------- equal trees, equal lists ----------

  predicate Perfect(t: Tree, height: nat) {
    match t
    case Leaf(_) => height == 0
    case Node(l, r) => height > 0 && Perfect(l, height - 1) && Perfect(r, height - 1)
  }

  predicate Distinct<T(==)>(s: seq<T>) {
    forall i, j :: 0 <= i < j < |s| ==> s[i] != s[j]
  }

  lemma {:induction false} PairedPerfect(level: seq<Tree>, height: nat)
    requires |level| > 0 && forall t :: t in level ==> Perfect(t, height)
    ensures forall t :: t in PairedTrees(Padded(level)) ==> Perfect(t, height + 1)
  {
    forall t | t in Padded(level) ensures t in level {
    }
  }

  lemma {:induction false} JoinPerfect(level: seq<Tree>, height: nat) returns (top: nat)
    requires |level| > 0 && forall t :: t in level ==> Perfect(t, height)
    ensures top >= height && (|level| > 1 ==> top > height) && Perfect(Join(level), top)
    decreases |level|
  {
    if |level| == 1 {
      top := height;
    } else {
      PairedPerfect(level, height);
      top := JoinPerfect(PairedTrees(Padded(level)), height + 1);
    }
  }

  lemma {:induction false} PerfectHeight(t: Tree, h: nat, k: nat)
    requires Perfect(t, h) && Perfect(t, k)
    ensures h == k
    decreases t
  {
    if t.Node? {
      PerfectHeight(t.left, h - 1, k - 1);
    }
  }

  lemma {:induction false} PairedDistinct(level: seq<Tree>)
    requires |level| > 1 && Distinct(level)
    ensures Distinct(PairedTrees(Padded(level)))
  {
  }

  /** Pairing up distinct trees loses nothing. */
  lemma {:induction false} PairedBinds(a: seq<Tree>, b: seq<Tree>)
    requires |a| > 1 && |b| > 1 && Distinct(a) && Distinct(b)
    requires PairedTrees(Padded(a)) == PairedTrees(Padded(b))
    ensures a == b
  {
    var p, q := Padded(a), Padded(b);
    var pairs := PairedTrees(p);
    assert |p| == |q|;
    forall i | 0 <= i < |p| ensures p[i] == q[i] {
      assert pairs[i / 2] == Node(p[2 * (i / 2)], p[2 * (i / 2) + 1]);
      assert pairs[i / 2] == Node(q[2 * (i / 2)], q[2 * (i / 2) + 1]);
    }
    assert p == q;
    if |a| == |b| + 1 {
      PaddingRepeats(b, a);
    } else if |b| == |a| + 1 {
      PaddingRepeats(a, b);
    } else {
      assert a == p[..|a|] == q[..|b|] == b;
    }
  }

  /** A level that padding another gives ends in a repeat. */
  lemma {:induction false} PaddingRepeats(shorter: seq<Tree>, longer: seq<Tree>)
    requires |shorter| > 0 && Padded(shorter) == Padded(longer) && |longer| == |shorter| + 1
    ensures longer[|longer| - 1] == longer[|longer| - 2]
  {
    assert Padded(longer)[..|longer|] == longer;
  }

  lemma {:induction false} JoinBinds(a: seq<Tree>, b: seq<Tree>, height: nat)
    requires |a| > 0 && |b| > 0 && Distinct(a) && Distinct(b)
    requires forall t :: t in a ==> Perfect(t, height)
    requires forall t :: t in b ==> Perfect(t, height)
    requires Join(a) == Join(b)
    ensures a == b
    decreases |a| + |b|
  {
    hide Join, Perfect, Distinct, PairedTrees;
    var h := JoinPerfect(a, height);
    var k := JoinPerfect(b, height);
    PerfectHeight(Join(a), h, k);
    if |a| == 1 && |b| == 1 {
      JoinOne(a);
      JoinOne(b);
    } else if |a| > 1 && |b| > 1 {
      JoinStep(a);
      JoinStep(b);
      PairedDistinct(a);
      PairedDistinct(b);
      PairedPerfect(a, height);
      PairedPerfect(b, height);
      JoinBinds(PairedTrees(Padded(a)), PairedTrees(Padded(b)), height + 1);
      PairedBinds(a, b);
    } else if |a| == 1 {
      JoinOne(a);
      PerfectHeight(Join(a), h, height);
    } else {
      JoinOne(b);
      PerfectHeight(Join(b), k, height);
    }
  }

  /** The trees of two duplicate-free lists are equal only when the lists are. */
  lemma {:induction false} TreeBinds(xs: seq<Bytes>, ys: seq<Bytes>)
    requires |xs| > 0 && |ys| > 0 && Distinct(xs) && Distinct(ys)
    requires TreeOf(xs) == TreeOf(ys)
    ensures xs == ys
  {
    JoinBinds(Leaves(xs), Leaves(ys), 0);
    forall i | 0 <= i < |xs| ensures xs[i] == ys[i] {
      assert Leaves(xs)[i] == Leaves(ys)[i];
    }
    assert |Leaves(xs)| == |Leaves(ys)|;
  }

  // ---------- the theorems ----------

  ghost function AllHashed(hash: Hash, inputs: seq<Bytes>): set<Bytes> {
    if |inputs| == 0 then {EMPTY_INPUT} else Hashed(hash, TreeOf(inputs))
  }

  /** What must hold of the hash for two lists' roots to be comparable. */
  ghost predicate Comparable(hash: Hash, xs: seq<Bytes>, ys: seq<Bytes>) {
    && CollisionFree(hash, AllHashed(hash, xs) + AllHashed(hash, ys))
    && (|xs| > 0 && |ys| > 0 ==> Separated(hash, TreeOf(xs), TreeOf(ys)))
    && (|xs| == 0 || |ys| == 0 ==> EMPTY_INPUT !in xs + ys)
  }

  /** Roots agree exactly when the trees, duplicated digests and all, agree. */
  lemma {:induction false} RootsEqualIffTreesEqual(hash: Hash, xs: seq<Bytes>, ys: seq<Bytes>)
    requires |xs| > 0 && |ys| > 0 && Comparable(hash, xs, ys)
    ensures MerkleRoot(hash, xs) == MerkleRoot(hash, ys) <==> TreeOf(xs) == TreeOf(ys)
  {
    if MerkleRoot(hash, xs) == MerkleRoot(hash, ys) {
      DigestBinds(hash, TreeOf(xs), TreeOf(ys));
    }
  }

  lemma {:induction false} EmptyRootDiffers(hash: Hash, ys: seq<Bytes>)
    requires |ys| > 0 && Comparable(hash, [], ys)
    ensures MerkleRoot(hash, ys) != MerkleRoot(hash, [])
  {
    var t := TreeOf(ys);
    var top := JoinPerfect(Leaves(ys), 0);
    TopHashed(hash, t);
    if t.Leaf? {
      LeafInputsAre(ys);
      assert t.input in LeafInputs(t);
    }
    if t.Node? {
      assert |Pair(DigestOf(hash, t.left), DigestOf(hash, t.right))| == 64;
    }
    assert |EMPTY_INPUT| == 18;
  }

  lemma {:induction false} TopHashed(hash: Hash, t: Tree)
    ensures match t
            case Leaf(x) => x in Hashed(hash, t)
            case Node(l, r) => Pair(DigestOf(hash, l), DigestOf(hash, r)) in Hashed(hash, t)
  {
  }

  lemma {:induction false} JoinLeafInputs(level: seq<Tree>, allowed: set<Bytes>)
    requires |level| > 0 && forall t :: t in level ==> LeafInputs(t) <= allowed
    ensures LeafInputs(Join(level)) <= allowed
    decreases |level|
  {
    if |level| > 1 {
      JoinLeafInputs(PairedTrees(Padded(level)), allowed);
    }
  }

  /** A list's tree has only the list's inputs at its leaves. */
  lemma {:induction false} LeafInputsAre(inputs: seq<Bytes>)
    requires |inputs| > 0
    ensures LeafInputs(TreeOf(inputs)) <= set x | x in inputs
  {
    JoinLeafInputs(Leaves(inputs), set x | x in inputs);
  }

  /**
    For lists with no repeated leaf, equal Merkle roots mean equal lists, whatever their
    lengths, for a hash with no collision among what was hashed and leaf inputs that are not
    themselves pairs of digests.
   */
  lemma {:induction false} RootBindsList(hash: Hash, xs: seq<Bytes>, ys: seq<Bytes>)
    requires Distinct(xs) && Distinct(ys) && Comparable(hash, xs, ys)
    requires MerkleRoot(hash, xs) == MerkleRoot(hash, ys)
    ensures xs == ys
  {
    if |xs| > 0 && |ys| > 0 {
      RootsEqualIffTreesEqual(hash, xs, ys);
      TreeBinds(xs, ys);
    } else if |xs| > 0 {
      ComparableSwap(hash, xs, ys);
      EmptyRootDiffers(hash, xs);
    } else if |ys| > 0 {
      EmptyRootDiffers(hash, ys);
    }
  }

  lemma {:induction false} ComparableSwap(hash: Hash, xs: seq<Bytes>, ys: seq<Bytes>)
    requires Comparable(hash, xs, ys)
    ensures Comparable(hash, ys, xs)
  {
    assert AllHashed(hash, xs) + AllHashed(hash, ys) == AllHashed(hash, ys) + AllHashed(hash, xs);
  }

  /** Duplicating the last leaf of an odd list of three or more never changes the root. */
  lemma {:induction false} LastLeafRepeats(hash: Hash, xs: seq<Bytes>)
    requires |xs| % 2 == 1 && |xs| >= 3
    ensures MerkleRoot(hash, xs) == MerkleRoot(hash, xs + [xs[|xs| - 1]])
  {
    var ys := xs + [xs[|xs| - 1]];
    assert Padded(Leaves(xs)) == Leaves(ys) == Padded(Leaves(ys));
  }

  /** Leaf inputs that are not two digests long are never pairs of digests. */
  lemma {:induction false} LengthSeparates(hash: Hash, xs: seq<Bytes>, ys: seq<Bytes>)
    requires |xs| > 0 && |ys| > 0
    requires forall x :: x in xs || x in ys ==> |x| != 2 * DIGEST_BYTES
    ensures Separated(hash, TreeOf(xs), TreeOf(ys))
  {
    LeafInputsAre(xs);
    LeafInputsAre(ys);
    PairLengths(hash, TreeOf(xs));
    PairLengths(hash, TreeOf(ys));
  }

  lemma {:induction false} PairLengths(hash: Hash, t: Tree)
    ensures forall p :: p in PairInputs(hash, t) ==> |p| == 2 * DIGEST_BYTES
    decreases t
  {
    if t.Node? {
      PairLengths(hash, t.left);
      PairLengths(hash, t.right);
    }
  }
}

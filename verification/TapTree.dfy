/** The vault's script tree and the Merkle commitment the verifier folds
    (src/crypto.ts, src/consensus.ts). */
module TapTree {

  /** Hashes are numbers compared by `<=`, as 32-byte strings compare. */
  datatype Tree<+S> = Leaf(script: S) | Node(left: Tree<S>, right: Tree<S>)

  /** TapLeaf and TapBranch. `leaf` covers leaf version, length and script. */
  datatype Hasher<!S> = Hasher(leaf: S -> int, branch: (int, int) -> int)

  /** BIP-341: children are hashed in ascending order. */
  function Branch<S>(H: Hasher<S>, a: int, b: int): int { if a <= b then H.branch(a, b) else H.branch(b, a) }

  function Root<S>(H: Hasher<S>, t: Tree<S>): int {
    match t
    case Leaf(script) => H.leaf(script)
    case Node(left, right) => Branch(H, Root(H, left), Root(H, right))
  }

  function Leaves<S>(t: Tree<S>): seq<S> {
    match t
    case Leaf(script) => [script]
    case Node(left, right) => Leaves(left) + Leaves(right)
  }

  function Depth<S>(t: Tree<S>): nat {
    match t
    case Leaf(_) => 0
    case Node(left, right) => 1 + if Depth(left) >= Depth(right) then Depth(left) else Depth(right)
  }

  /** toBinaryTapTree: the larger half goes left. */
  function Build<S>(leaves: seq<S>): Tree<S>
    requires |leaves| >= 1
  {
    if |leaves| == 1 then Leaf(leaves[0])
    else if |leaves| == 2 then Node(Leaf(leaves[0]), Leaf(leaves[1]))
    else
      var midpoint := (|leaves| + 1) / 2;
      Node(Build(leaves[..midpoint]), Build(leaves[midpoint..]))
  }

  function Pow2(d: nat): nat { if d == 0 then 1 else 2 * Pow2(d - 1) }

  /** The verifier's fold over the control block's sibling hashes. */
  function Fold<S>(H: Hasher<S>, start: int, path: seq<int>): int {
    if path == [] then start else Branch(H, Fold(H, start, path[..|path| - 1]), path[|path| - 1])
  }

  /** Sibling hashes from leaf number i up to the root: its control block path. */
  function Path<S>(H: Hasher<S>, t: Tree<S>, i: nat): seq<int>
    requires i < |Leaves(t)|
  {
    match t
    case Leaf(_) => []
    case Node(left, right) =>
      var n := |Leaves(left)|;
      if i < n then Path(H, left, i) + [Root(H, right)]
      else Path(H, right, i - n) + [Root(H, left)]
  }

  /** The fold loop of verifyScriptPathSpend. */
  method FoldPath<S>(H: Hasher<S>, script: S, path: seq<int>) returns (merkle: int)
    ensures merkle == Fold(H, H.leaf(script), path)
  {
    merkle := H.leaf(script);
    for offset := 0 to |path|
      invariant merkle == Fold(H, H.leaf(script), path[..offset])
    {
      var node := path[offset];
      assert path[..offset + 1][..offset] == path[..offset];
      merkle := if merkle <= node then H.branch(merkle, node) else H.branch(node, merkle);
    }
    assert path[..|path|] == path;
  }

  // ----- shape -----

  lemma BuildHalves<S>(leaves: seq<S>)
    requires |leaves| > 2
    ensures var midpoint := (|leaves| + 1) / 2;
            Build(leaves) == Node(Build(leaves[..midpoint]), Build(leaves[midpoint..]))
  {
  }

  lemma {:induction false} BuildKeepsLeaves<S>(leaves: seq<S>)
    requires |leaves| >= 1
    ensures Leaves(Build(leaves)) == leaves
  {
    if |leaves| <= 2 {
      assert Leaves(Build(leaves)) == if |leaves| == 1 then [leaves[0]] else [leaves[0]] + [leaves[1]];
    } else {
      var midpoint := (|leaves| + 1) / 2;
      BuildHalves(leaves);
      hide Build;
      BuildKeepsLeaves(leaves[..midpoint]);
      BuildKeepsLeaves(leaves[midpoint..]);
      assert leaves[..midpoint] + leaves[midpoint..] == leaves;
    }
  }

  /** At every node the left side has as many leaves as the right, or one more. */
  predicate LeftHeavy<S>(t: Tree<S>) {
    match t
    case Leaf(_) => true
    case Node(left, right) =>
      |Leaves(right)| <= |Leaves(left)| <= |Leaves(right)| + 1 && LeftHeavy(left) && LeftHeavy(right)
  }

  lemma {:induction false} BuildIsLeftHeavy<S>(leaves: seq<S>)
    requires |leaves| >= 1
    ensures LeftHeavy(Build(leaves))
  {
    if |leaves| > 2 {
      var midpoint := (|leaves| + 1) / 2;
      BuildHalves(leaves);
      hide Build;
      BuildKeepsLeaves(leaves[..midpoint]);
      BuildKeepsLeaves(leaves[midpoint..]);
      BuildIsLeftHeavy(leaves[..midpoint]);
      BuildIsLeftHeavy(leaves[midpoint..]);
    }
  }

  lemma {:induction false} SomeLeaf<S>(t: Tree<S>)
    ensures |Leaves(t)| >= 1
  {
    if t.Node? {
      SomeLeaf(t.left);
      SomeLeaf(t.right);
    }
  }

  /** The built tree is the only one with these leaves whose larger halves go left. */
  lemma {:induction false} BuildIsTheBalancedTree<S>(leaves: seq<S>, t: Tree<S>)
    requires |leaves| >= 1
    ensures t == Build(leaves) <==> Leaves(t) == leaves && LeftHeavy(t)
  {
    BuildKeepsLeaves(leaves);
    BuildIsLeftHeavy(leaves);
    if Leaves(t) == leaves && LeftHeavy(t) && t.Node? {
      var left, right := t.left, t.right;
      var n := |Leaves(left)|;
      SomeLeaf(left);
      SomeLeaf(right);
      assert leaves[..n] == Leaves(left) && leaves[n..] == Leaves(right);
      BuildIsTheBalancedTree(leaves[..n], left);
      BuildIsTheBalancedTree(leaves[n..], right);
      assert n == (|leaves| + 1) / 2;
    }
  }

  /** Every leaf lies at most ceil(log2 n) deep. */
  lemma {:induction false} BuildIsShallow<S>(leaves: seq<S>, d: nat)
    requires 1 <= |leaves| <= Pow2(d)
    ensures Depth(Build(leaves)) <= d
  {
    if |leaves| == 2 {
      assert d >= 1;
    } else if |leaves| > 2 {
      var midpoint := (|leaves| + 1) / 2;
      BuildIsShallow(leaves[..midpoint], d - 1);
      BuildIsShallow(leaves[midpoint..], d - 1);
    }
  }

  /** The bound is met: the tree is no shallower than n leaves force. */
  lemma {:induction false} LeavesForceDepth<S>(t: Tree<S>)
    ensures |Leaves(t)| <= Pow2(Depth(t))
  {
    match t
    case Leaf(_) =>
    case Node(left, right) =>
      LeavesForceDepth(left);
      LeavesForceDepth(right);
      Pow2Grows(Depth(left), Depth(t) - 1);
      Pow2Grows(Depth(right), Depth(t) - 1);
  }

  lemma {:induction false} Pow2Grows(a: nat, b: nat)
    requires a <= b
    ensures Pow2(a) <= Pow2(b)
  {
    if a < b {
      Pow2Grows(a, b - 1);
    }
  }

  // ----- commitment -----

  /** Completeness: every leaf's control block folds to the root, and is as long
      as the leaf is deep. */
  lemma {:induction false} PathFoldsToRoot<S>(H: Hasher<S>, t: Tree<S>, i: nat)
    requires i < |Leaves(t)|
    ensures Fold(H, H.leaf(Leaves(t)[i]), Path(H, t, i)) == Root(H, t)
    ensures |Path(H, t, i)| <= Depth(t)
  {
    match t
    case Leaf(_) =>
    case Node(left, right) =>
      var n := |Leaves(left)|;
      var path := Path(H, t, i);
      if i < n {
        PathFoldsToRoot(H, left, i);
        assert path[..|path| - 1] == Path(H, left, i);
      } else {
        PathFoldsToRoot(H, right, i - n);
        assert path[..|path| - 1] == Path(H, right, i - n);
      }
  }

  /** No two inputs of the tagged hashes share a digest, across the two tags too. */
  ghost predicate CollisionFree<S(!new)>(H: Hasher<S>) {
    && (forall s, s' :: H.leaf(s) == H.leaf(s') ==> s == s')
    && (forall a, b, a', b' :: H.branch(a, b) == H.branch(a', b') ==> a == a' && b == b')
    && (forall s, a, b :: H.leaf(s) != H.branch(a, b))
  }

  lemma BranchInjective<S(!new)>(H: Hasher<S>, a: int, b: int, a': int, b': int)
    requires CollisionFree(H) && Branch(H, a, b) == Branch(H, a', b')
    ensures (a == a' && b == b') || (a == b' && b == a')
  {
  }

  lemma LeafIsNoBranch<S(!new)>(H: Hasher<S>, script: S)
    requires CollisionFree(H)
    ensures forall a, b :: Branch(H, a, b) != H.leaf(script)
  {
  }

  lemma LeafInjective<S(!new)>(H: Hasher<S>, script: S, other: S)
    requires CollisionFree(H) && H.leaf(script) == H.leaf(other)
    ensures script == other
  {
  }

  /** Leaves and paths of a node, from those of its halves. */
  lemma LeavesOfNode<S>(H: Hasher<S>, left: Tree<S>, right: Tree<S>, i: nat)
    ensures i < |Leaves(left)| ==>
              && i < |Leaves(Node(left, right))| && Leaves(Node(left, right))[i] == Leaves(left)[i]
              && Path(H, Node(left, right), i) == Path(H, left, i) + [Root(H, right)]
    ensures i < |Leaves(right)| ==>
              var j := i + |Leaves(left)|;
              && j < |Leaves(Node(left, right))| && Leaves(Node(left, right))[j] == Leaves(right)[i]
              && Path(H, Node(left, right), j) == Path(H, right, i) + [Root(H, left)]
  {
  }

  /** Soundness: a script and a path that fold to the root are a leaf of the tree
      and that leaf's own path. */
  lemma {:induction false} FoldCommits<S(!new)>(H: Hasher<S>, t: Tree<S>, script: S, path: seq<int>) returns (i: nat)
    requires CollisionFree(H) && Fold(H, H.leaf(script), path) == Root(H, t)
    ensures i < |Leaves(t)| && Leaves(t)[i] == script && path == Path(H, t, i)
    decreases t
  {
    hide CollisionFree, Branch;
    match t
    case Leaf(s) =>
      LeafIsNoBranch(H, s);
      LeafInjective(H, if path == [] then script else s, s);
      i := 0;
    case Node(left, right) =>
      hide Leaves, Path;
      if path == [] {
        LeafIsNoBranch(H, script);
        assert false;
      }
      var prefix, top := path[..|path| - 1], path[|path| - 1];
      BranchInjective(H, Fold(H, H.leaf(script), prefix), top, Root(H, left), Root(H, right));
      assert path == prefix + [top];
      if Fold(H, H.leaf(script), prefix) == Root(H, left) && top == Root(H, right) {
        i := FoldCommits(H, left, script, prefix);
        LeavesOfNode(H, left, right, i);
      } else {
        i := FoldCommits(H, right, script, prefix);
        LeavesOfNode(H, left, right, i);
        i := i + |Leaves(left)|;
      }
  }

  /** The verifier accepts a (script, path) pair for the built tree exactly when
      the script is one of the leaves and the path is that leaf's. */
  lemma CommitsExactlyToLeaves<S(!new)>(H: Hasher<S>, leaves: seq<S>, script: S, path: seq<int>)
    requires CollisionFree(H) && |leaves| >= 1
    ensures Fold(H, H.leaf(script), path) == Root(H, Build(leaves))
            <==> exists i | 0 <= i < |Leaves(Build(leaves))| ::
                   Leaves(Build(leaves))[i] == script && path == Path(H, Build(leaves), i)
    ensures Fold(H, H.leaf(script), path) == Root(H, Build(leaves)) ==> script in leaves
  {
    var t := Build(leaves);
    BuildKeepsLeaves(leaves);
    if Fold(H, H.leaf(script), path) == Root(H, t) {
      var i := FoldCommits(H, t, script, path);
    }
    forall i | 0 <= i < |Leaves(t)| ensures Fold(H, H.leaf(Leaves(t)[i]), Path(H, t, i)) == Root(H, t) {
      PathFoldsToRoot(H, t, i);
    }
  }
}

/** Proving from the nodes of an authenticated trie that a key is absent: the branches of its neighbours. */
module Gaps {
  import opened Absence
  import opened Canonical
  import opened Certificates
  import opened CopyOnWrite
  import opened Forgeries
  import opened Keys
  import opened Tries
  import P = Proofs

  // ------------------------------------------------------------------ on values

  /** Searching for the key of a leaf takes the path to it. */
  lemma {:induction false} PathFinds(t: Trie, p: Path, k: Key)
    requires t.Valid() && P.ToLeaf(t, p) && k == KeyAt(t, p)
    ensures t.Accepts(k) && FindFrom(t, k).Found? && FindFrom(t, k).path == p
  {
    KeyAtIsStored(t, p);
    StoredIsAccepted(t, k);
    if t.Branch? {
      PathFinds(if p[0] then t.left else t.right, p[1..], k);
      BranchSplits(t, k);
      assert p == [p[0]] + p[1..];
    }
  }

  lemma {:induction false} SubtrieTwice(t: Trie, p: Path, q: Path)
    requires q != [] ==> SubtrieAt(t, p).Branch?
    ensures SubtrieAt(t, p + q) == SubtrieAt(SubtrieAt(t, p), q)
    decreases |p|
  {
    if p == [] {
      assert p + q == q;
    } else if t.Branch? {
      SubtrieTwice(if p[0] then t.left else t.right, p[1..], q);
      assert (p + q)[1..] == p[1..] + q;
    }
  }

  /** From a branch one step to one side, and then always the other way. */
  function Inward(s: Trie, left: bool): Path
    requires s.Branch?
  {
    [left] + AlwaysOneWay(if left then s.left else s.right, !left)
  }

  lemma InwardEnds(s: Trie, left: bool)
    requires s.Branch?
    ensures P.ToLeaf(s, Inward(s, left))
    ensures KeyAt(s, Inward(s, left)) == if left then Smallest(s.left).key else Largest(s.right).key
  {
    OneWayEnds(if left then s.left else s.right, !left);
    assert Inward(s, left)[1..] == AlwaysOneWay(if left then s.left else s.right, !left);
  }

  lemma BranchIsShaped(h: Hasher, t: Trie, p: Path)
    requires P.ToLeaf(t, p)
    ensures WellShaped(P.BranchOf(h, t, p))
  {
    P.SiblingsAreTraced(h, t, p);
    var b := P.BranchOf(h, t, p);
    assert b[1..|b| - 1] == P.Siblings(h, t, p);
  }

  /** The element at the end of a path, by its key. */
  lemma ElemAt(t: Trie, p: Path, e: Elem)
    requires t.Valid() && P.ToLeaf(t, p) && e.key == KeyAt(t, p) && e.key in t.Contents() && t.Contents()[e.key] == e
    ensures SubtrieAt(t, p) == Leaf(e)
  {
    PathFinds(t, p, e.key);
    FindFromDecides(t, e.key);
    P.FoundAtLeaf(t, e.key);
  }

  /** Two branches that prove k absent to anyone who knows the root hash: they vouch for x and y, the
      nearest elements below and above it, are of the right shape and pass the test for neighbours,
      coded or full. */
  ghost predicate Proves(h: Hasher, t: Trie, lower: seq<P.Entry>, upper: seq<P.Entry>, x: Elem, y: Elem) {
    && P.VouchesIn(h, t, lower, x.Output()) && P.VouchesIn(h, t, upper, y.Output())
    && WellShaped(lower) && WellShaped(upper)
    && P.ConsecutiveAsCoded(lower, upper) && P.ConsecutiveInFull(lower, upper)
  }

  /** x and y are the nearest elements below and above k, and what unary minus and plus give. */
  ghost predicate Around(root: Root, k: Key, x: Elem, y: Elem) {
    && Minus(root, k) == Some(x) && Plus(root, k) == Some(y)
    && IsPredecessor(root, k, Some(x)) && IsSuccessor(root, k, Some(y))
  }

  lemma NearestInside(root: Root, k: Key, p: Path, s: Trie)
    requires root.Full? && root.Valid() && root.trie.Accepts(k) && FindFrom(root.trie, k).Missing?
    requires p == FindFrom(root.trie, k).path && s == SubtrieAt(root.trie, p) && s.Branch? && Straddles(s, k)
    ensures Around(root, k, Largest(s.right), Smallest(s.left))
  {
    NearestAtBranch(root, k);
    assert Find(root, k).path[1..] == p;
  }

  lemma AroundIsAdjacent(root: Root, k: Key, x: Elem, y: Elem)
    requires root.Full? && root.Valid() && k !in root.Contents() && Around(root, k, x, y)
    ensures Adjacent(root.trie, x.key, y.key)
  {
  }

  lemma LeafProves(h: Hasher, t: Trie, p: Path, e: Elem)
    requires t.Valid() && P.ToLeaf(t, p) && e.key == KeyAt(t, p) && e.key in t.Contents() && t.Contents()[e.key] == e
    ensures P.VouchesIn(h, t, P.BranchOf(h, t, p), e.Output()) && WellShaped(P.BranchOf(h, t, p))
  {
    ElemAt(t, p, e);
    P.BranchVouches(h, t, p);
    BranchIsShaped(h, t, p);
  }

  /** The branches of two neighbouring leaves. */
  lemma NeighboursProve(h: Hasher, t: Trie, lower: Path, upper: Path, x: Elem, y: Elem)
    requires t.Valid() && P.ToLeaf(t, lower) && P.ToLeaf(t, upper) && x.key == KeyAt(t, lower) && y.key == KeyAt(t, upper)
    requires Adjacent(t, x.key, y.key) && t.Contents()[x.key] == x && t.Contents()[y.key] == y
    ensures Proves(h, t, P.BranchOf(h, t, lower), P.BranchOf(h, t, upper), x, y)
  {
    LeafProves(h, t, lower, x);
    LeafProves(h, t, upper, y);
    CodedTestAndAdjacency(h, t, lower, upper);
    FullTestIsAdjacency(h, t, lower, upper);
  }

  lemma KeyInside(t: Trie, p: Path, left: bool)
    requires SubtrieAt(t, p).Branch?
    ensures var s := SubtrieAt(t, p);
      KeyAt(t, p + Inward(s, left)) == if left then Smallest(s.left).key else Largest(s.right).key
  {
    InwardEnds(SubtrieAt(t, p), left);
    SubtrieTwice(t, p, Inward(SubtrieAt(t, p), left));
  }

  /** The branches of the two neighbours of an absent key. */
  lemma InsideProves(h: Hasher, root: Root, k: Key, p: Path, s: Trie, lower: Path, upper: Path)
    requires root.Full? && root.Valid() && root.trie.Accepts(k) && FindFrom(root.trie, k).Missing?
    requires p == FindFrom(root.trie, k).path && s == SubtrieAt(root.trie, p) && s.Branch? && Straddles(s, k)
    requires lower == p + Inward(s, false) && upper == p + Inward(s, true)
    requires P.ToLeaf(root.trie, lower) && P.ToLeaf(root.trie, upper)
    ensures Around(root, k, Largest(s.right), Smallest(s.left))
    ensures Proves(h, root.trie, P.BranchOf(h, root.trie, lower), P.BranchOf(h, root.trie, upper), Largest(s.right), Smallest(s.left))
  {
    NearestInside(root, k, p, s);
    FindFromDecides(root.trie, k);
    AroundIsAdjacent(root, k, Largest(s.right), Smallest(s.left));
    KeyInside(root.trie, p, false);
    KeyInside(root.trie, p, true);
    NeighboursProve(h, root.trie, lower, upper, Largest(s.right), Smallest(s.left));
  }

  // ------------------------------------------------------------------ on nodes

  /** A path from the genitor, node by node. */
  ghost predicate Walk(t: MerkleTrie, path: seq<Node>, dirs: Path)
    reads t, t.heap, t.heap.nodes
  {
    && |path| == |dirs| + 1 >= 2 && path[0] == t.genitor && t.genitor in t.heap.nodes && t.genitor.kind.Genitor? && dirs[0]
    && (forall i {:trigger path[i]} | 0 <= i < |path| :: path[i] in t.heap.nodes)
    && (forall i {:trigger path[i]} | 1 <= i < |path| :: path[i].Inner())
    && (forall i {:trigger t.Linked(path, dirs, i)} | 0 <= i < |dirs| :: t.Linked(path, dirs, i))
  }

  lemma SearchIsWalk(t: MerkleTrie, path: seq<Node>, dirs: Path, k: Key, hit: bool)
    requires t.Searches(path, dirs, k, hit) && |path| >= 2
    ensures Walk(t, path, dirs)
  {
    forall i | 1 <= i < |path|
      ensures path[i].Inner()
    {
      assert t.OnTheWay(path[i], dirs[i..], k, hit);
    }
  }

  /** One node further. */
  lemma WalkOn(t: MerkleTrie, path: seq<Node>, dirs: Path, b: bool)
    requires t.heap.AllWellMade() && Walk(t, path, dirs) && path[|dirs|].kind.BranchNode?
    ensures path[|dirs|].Child(b) != null && Walk(t, path + [path[|dirs|].Child(b)], dirs + [b])
    ensures var n := path[|dirs|]; n.model.Branch? && n.Child(b).model == if b then n.model.left else n.model.right
  {
    var n := path[|dirs|];
    assert t.heap.WellMade(n);
    var path', dirs' := path + [n.Child(b)], dirs + [b];
    forall i | 0 <= i < |dirs'|
      ensures t.Linked(path', dirs', i)
    {
      assert i < |dirs| ==> t.Linked(path, dirs, i);
    }
  }

  /** The rest of a walk that ends at a leaf leads its nodes' tries to that leaf. */
  lemma WalkLeads(t: MerkleTrie, path: seq<Node>, dirs: Path, i: nat)
    requires t.heap.AllWellMade() && Walk(t, path, dirs) && path[|dirs|].kind.LeafNode? && 1 <= i <= |dirs|
    ensures path[i].model.Valid() && P.ToLeaf(path[i].model, dirs[i..])
    ensures KeyAt(path[i].model, dirs[i..]) == path[|dirs|].kind.elem.key
    decreases |dirs| - i
  {
    assert t.heap.WellMade(path[i]);
    if i < |dirs| {
      WalkLeads(t, path, dirs, i + 1);
      assert t.Linked(path, dirs, i) && path[i + 1] in t.heap.nodes;
      assert dirs[i..][0] == dirs[i] && dirs[i..][1..] == dirs[i + 1..];
    }
  }

  /** Such a walk is the path that a search for the leaf's key finds. */
  lemma WalkIsSearch(t: MerkleTrie, path: seq<Node>, dirs: Path, k: Key)
    requires t.heap.AllWellMade() && Walk(t, path, dirs) && path[|dirs|].kind.LeafNode? && k == path[|dirs|].kind.elem.key
    ensures t.Searches(path, dirs, k, true)
  {
    forall i | 1 <= i < |path|
      ensures t.OnTheWay(path[i], dirs[i..], k, true)
    {
      WalkLeads(t, path, dirs, i);
      PathFinds(path[i].model, dirs[i..], k);
    }
  }

  /** From the branch where a search stopped, one step to one side and then always the other way, as
      unary plus and minus do. */
  method Descend(t: MerkleTrie, found: seq<Node>, ghost dirs: Path, left: bool) returns (path: seq<Node>, ghost way: Path)
    requires t.heap.AllWellMade() && Walk(t, found, dirs) && found[|dirs|].kind.BranchNode? && found[|dirs|].model.Branch?
    ensures Walk(t, path, way) && path[|way|].kind.LeafNode? && path[1] == found[1]
    ensures way == dirs + Inward(found[|dirs|].model, left)
  {
    var n := found[|found| - 1];
    WalkOn(t, found, dirs, left);
    n := n.Child(left);
    path, way := found + [n], dirs + [left];
    ghost var goal := dirs + Inward(found[|dirs|].model, left);
    assert way + AlwaysOneWay(n.model, !left) == goal;
    while n.kind.BranchNode?
      invariant Walk(t, path, way) && n == path[|way|] && path[1] == found[1]
      invariant way + AlwaysOneWay(n.model, !left) == goal
      decreases n.model
    {
      WalkOn(t, path, way, !left);
      assert way + AlwaysOneWay(n.model, !left) == (way + [!left]) + AlwaysOneWay(n.Child(!left).model, !left);
      n := n.Child(!left);
      path, way := path + [n], way + [!left];
    }
    assert t.heap.WellMade(n);
    assert way + [] == way;
  }

  /** The branch of the neighbour on one side, read off the nodes. */
  method BranchBeside(t: MerkleTrie, found: seq<Node>, ghost dirs: Path, ghost k: Key, left: bool) returns (b: P.Branch, ghost way: Path)
    requires t.heap.Valid() && t in t.heap.tries && t.authenticated
    requires t.Searches(found, dirs, k, false) && |found| >= 2 && found[|dirs|].kind.BranchNode? && found[|dirs|].model.Branch?
    ensures fresh(b) && t.genitor.left == found[1] && way == dirs + Inward(found[|dirs|].model, left)
    ensures P.ToLeaf(found[1].model, way[1..]) && b.hashes == P.BranchOf(t.heap.h, found[1].model, way[1..])
  {
    SearchIsWalk(t, found, dirs, k, false);
    var path;
    path, way := Descend(t, found, dirs, left);
    ghost var key := path[|way|].kind.elem.key;
    WalkIsSearch(t, path, way, key);
    WalkLeads(t, path, way, 1);
    b := BranchAlong(t, path, way, key);
  }

  /** Where a search for an absent key stops at a branch that straddles it, the branches of the leaves
      on either side prove it absent, however the trie came about. */
  method CertifyAbsence(t: MerkleTrie, k: Key) returns (lower: P.Branch, upper: P.Branch)
    requires t.heap.Valid() && t in t.heap.tries && t.authenticated && t.Value().Full?
    requires t.Value().trie.Accepts(k) && FindFrom(t.Value().trie, k).Missing?
    requires var s := SubtrieAt(t.Value().trie, FindFrom(t.Value().trie, k).path); s.Branch? && Straddles(s, k)
    ensures Minus(t.Value(), k).Some? && Plus(t.Value(), k).Some?
    ensures Around(t.Value(), k, Minus(t.Value(), k).elem, Plus(t.Value(), k).elem)
    ensures Proves(t.heap.h, t.Value().trie, lower.hashes, upper.hashes, Minus(t.Value(), k).elem, Plus(t.Value(), k).elem)
  {
    ghost var root, p := t.Value(), FindFrom(t.Value().trie, k).path;
    assert t.heap.TrieOk(t) && t.heap.WellMade(t.genitor);
    var found := t.FindPath(k);
    ghost var dirs, low, high := [true] + p, [], [];
    StopNode(t, found, dirs, k);
    lower, low := BranchBeside(t, found, dirs, k, false);
    upper, high := BranchBeside(t, found, dirs, k, true);
    ghost var s := SubtrieAt(root.trie, p);
    TailOfSum(p, Inward(s, false));
    TailOfSum(p, Inward(s, true));
    InsideProves(t.heap.h, root, k, p, s, low[1..], high[1..]);
  }

  lemma TailOfSum(p: Path, q: Path)
    ensures (([true] + p) + q)[1..] == p + q
  {
  }

  /** The node at which a search stopped holds the trie at which it stopped. */
  lemma StopNode(t: MerkleTrie, found: seq<Node>, dirs: Path, k: Key)
    requires t.heap.Valid() && t in t.heap.tries && t.Value().Full? && t.Value().Valid() && t.Value().trie.Accepts(k)
    requires FindFrom(t.Value().trie, k).Missing? && dirs == [true] + FindFrom(t.Value().trie, k).path && t.Searches(found, dirs, k, false)
    ensures |found| >= 2 && found[1] == t.genitor.left && found[|dirs|].kind.BranchNode?
    ensures found[|dirs|].model == SubtrieAt(t.Value().trie, FindFrom(t.Value().trie, k).path)
  {
    var p := FindFrom(t.Value().trie, k).path;
    assert dirs[1..] == p && t.Linked(found, dirs, 0);
    StopFrom(t, found, dirs, k, 1);
  }

  lemma StopFrom(t: MerkleTrie, found: seq<Node>, dirs: Path, k: Key, i: nat)
    requires t.heap.AllWellMade() && t.Searches(found, dirs, k, false) && 1 <= i <= |dirs|
    ensures found[|dirs|].kind.BranchNode? && found[|dirs|].model == SubtrieAt(found[i].model, dirs[i..])
    decreases |dirs| - i
  {
    assert t.OnTheWay(found[i], dirs[i..], k, false) && t.heap.WellMade(found[i]);
    if i < |dirs| {
      StopFrom(t, found, dirs, k, i + 1);
      assert t.Linked(found, dirs, i);
      t.PathBranches(found, dirs, k, false, i);
      assert dirs[i..][0] == dirs[i] && dirs[i..][1..] == dirs[i + 1..];
    } else {
      assert dirs[i..] == [];
    }
  }
}

/** Reading the branch of a stored element off the nodes of an authenticated trie. */
module Certificates {
  import opened Keys
  import opened Tries
  import opened Canonical
  import opened CopyOnWrite
  import P = Proofs

  /** The entry that a step of a search path adds to its branch. */
  function EntryFor(h: Hasher, bn: Node, next: Node): P.Entry
    requires bn.left != null && bn.right != null
    reads bn`left, bn`right, bn.left`hash, bn.right`hash
  {
    if bn.right == next then P.Entry(P.LeftEntry, bn.left.HashOf(h)) else P.Entry(P.RightEntry, bn.right.HashOf(h))
  }

  /** What is still to be collected below a node of a search path. */
  lemma SiblingsStep(t: MerkleTrie, found: seq<Node>, dirs: Path, k: Key, i: nat)
    requires Usable(t, found, dirs, k) && 2 <= i < |found|
    requires found[i - 1].hashed
    ensures found[i - 1].kind.BranchNode? && found[i - 1].left != null && found[i - 1].right != null && found[i].hashed
    ensures var bn, h := found[i - 1], t.heap.h;
      P.SiblingsAndLeaf(h, bn.model, dirs[i - 1..]) == [EntryFor(h, bn, found[i])] + P.SiblingsAndLeaf(h, found[i].model, dirs[i..])
  {
    var bn := found[i - 1];
    assert t.OnTheWay(bn, dirs[i - 1..], k, true) && t.Linked(found, dirs, i - 1);
    t.PathBranches(found, dirs, k, true, i - 1);
    assert t.heap.WellMade(bn);
    t.heap.ChildrenDiffer(bn);
    t.StoredHashIsFullHash(bn.left);
    t.StoredHashIsFullHash(bn.right);
    assert dirs[i - 1..][0] == dirs[i - 1] && dirs[i - 1..][1..] == dirs[i..];
  }

  /** A found path of an authenticated trie. */
  ghost predicate Usable(t: MerkleTrie, found: seq<Node>, dirs: Path, k: Key)
    reads t, t.heap, t.heap.nodes, t.heap.tries
  {
    && t.heap.Valid() && t in t.heap.tries && t.authenticated
    && t.Searches(found, dirs, k, true) && |found| >= 2 && found[|found| - 1].kind.LeafNode?
  }

  lemma Regroup(b: seq<P.Entry>, e: P.Entry, rest: seq<P.Entry>)
    ensures b + ([e] + rest) == (b + [e]) + rest
  {
  }

  lemma SiblingsMove(b: seq<P.Entry>, t: MerkleTrie, found: seq<Node>, dirs: Path, k: Key, i: nat)
    requires Usable(t, found, dirs, k) && 2 <= i < |found|
    requires found[i - 1].hashed
    ensures found[i - 1].left != null && found[i - 1].right != null && found[i].hashed
    ensures var bn, h := found[i - 1], t.heap.h;
      b + P.SiblingsAndLeaf(h, bn.model, dirs[i - 1..]) == (b + [EntryFor(h, bn, found[i])]) + P.SiblingsAndLeaf(h, found[i].model, dirs[i..])
  {
    SiblingsStep(t, found, dirs, k, i);
    Regroup(b, EntryFor(t.heap.h, found[i - 1], found[i]), P.SiblingsAndLeaf(t.heap.h, found[i].model, dirs[i..]));
  }

  lemma OnlyTheLeaf(t: MerkleTrie, found: seq<Node>, dirs: Path, k: Key)
    requires Usable(t, found, dirs, k)
    ensures var leaf, h := found[|found| - 1], t.heap.h;
      P.SiblingsAndLeaf(h, leaf.model, dirs[|found| - 1..]) == [P.Entry(P.LeafEntry, leaf.HashOf(h))]
  {
    assert t.heap.WellMade(found[|found| - 1]) && dirs[|found| - 1..] == [];
  }

  method PushSibling(b: P.Branch, bn: Node, next: Node, h: Hasher)
    requires bn.left != null && bn.right != null
    modifies b
    ensures b.hashes == old(b.hashes) + [EntryFor(h, bn, next)]
  {
    if bn.right == next {
      b.Push(P.LeftEntry, bn.left.HashOf(h));
    } else {
      b.Push(P.RightEntry, bn.right.HashOf(h));
    }
  }

  /** The branch of the leaf at the end of a found path. Paths start at the genitor. */
  method BranchAlong(t: MerkleTrie, found: seq<Node>, ghost dirs: Path, ghost k: Key) returns (b: P.Branch)
    requires Usable(t, found, dirs, k)
    ensures fresh(b) && t.genitor.left == found[1] && b.hashes == P.BranchOf(t.heap.h, found[1].model, dirs[1..])
  {
    var h := t.heap.h;
    assert t.heap.TrieOk(t) && t.Linked(found, dirs, 0);
    t.StoredHashIsFullHash(found[1]);
    ghost var whole := P.BranchOf(h, found[1].model, dirs[1..]);
    b := new P.Branch();
    b.Push(P.RootEntry, found[1].HashOf(h));
    for i := 2 to |found|
      invariant fresh(b) && Usable(t, found, dirs, k) && found[i - 1].hashed
      invariant b.hashes + P.SiblingsAndLeaf(h, found[i - 1].model, dirs[i - 1..]) == whole
    {
      var bn := found[i - 1];
      SiblingsMove(b.hashes, t, found, dirs, k, i);
      PushSibling(b, bn, found[i], h);
    }
    var leaf := found[|found| - 1];
    OnlyTheLeaf(t, found, dirs, k);
    b.Push(P.LeafEntry, leaf.HashOf(h));
  }

  /** Look an element up in an authenticated trie and prove its membership: the branch read off the
      nodes validates against the root hash, however the trie came about. */
  method Certify(t: MerkleTrie, k: Key) returns (b: P.Branch)
    requires t.heap.Valid() && t in t.heap.tries && t.authenticated && k in t.Value().Contents()
    ensures b.hashes != [] && b.hashes[0].hash == RootHash(t.heap.h, t.Value())
    ensures P.Vouches(t.heap.h, b.hashes, t.heap.h.leaf(t.Value().Contents()[k].Output()))
  {
    assert t.heap.TrieOk(t) && t.heap.WellMade(t.genitor);
    P.MembershipComplete(t.heap.h, t.Value(), k);
    var found := t.FindPath(k);
    b := BranchAlong(t, found, Find(t.Value(), k).path, k);
  }
}

/** The trie as it lives in memory: nodes shared between tries through reference counts, cloned along
    the search path before they are changed. */
module CopyOnWrite {
  import opened Keys
  import opened Tries
  import opened Canonical

  /** The genitor is the branch node of depth -1 above a trie's root; its right child is an end node. */
  datatype NodeKind =
    | EndNode
    | LeafNode(elem: Elem)
    | BranchNode(key: Key, depth: nat)
    | Genitor

  /** A reference-counting pointer: a child field of a node, or a trie's handle on its genitor. */
  datatype Slot = Field(node: Node, left: bool) | Handle(trie: MerkleTrie)

  /** A change about to be made: the last node of an owned path is to point at a new target. */
  datatype Site = Site(path: seq<Node>, dirs: Path, left: bool, target: Node?, orphan: Node?)

  class Node {
    const kind: NodeKind
    var left: Node?
    var right: Node?
    var hash: Hash
    var refCount: int

    ghost var holders: set<Slot>  // the pointers that are counted
    ghost var model: Trie         // the subtrie below a leaf or branch
    ghost var hashed: bool        // the stored hashes below are up to date

    constructor (kind: NodeKind, left: Node?, right: Node?, hash: Hash, ghost model: Trie, ghost hashed: bool)
      ensures this.kind == kind && this.left == left && this.right == right && this.hash == hash
      ensures this.model == model && this.hashed == hashed
      ensures refCount == 0 && holders == {}
    {
      this.kind := kind;
      this.left := left;
      this.right := right;
      this.hash := hash;
      this.model := model;
      this.hashed := hashed;
      refCount := 0;
      holders := {};
    }

    predicate Inner() {
      kind.LeafNode? || kind.BranchNode?
    }

    function Child(left: bool): Node?
      reads this`left, this`right
    {
      if left then this.left else right
    }

    function Key(): Key
      requires Inner()
    {
      if kind.LeafNode? then kind.elem.key else kind.key
    }

    function Compare(k: Key): int
      requires !kind.Genitor?
    {
      if kind.EndNode? then 100000 else Keys.Compare(Key(), k)
    }

    function Depth(): nat
      requires !kind.Genitor?
    {
      if kind.BranchNode? then kind.depth else 0
    }

    function HashOf(h: Hasher): Hash
      reads this`hash
    {
      match kind
      case EndNode => NO_HASH
      case LeafNode(e) => h.leaf(e.Output())
      case _ => hash
    }

    predicate Unique()
      reads this`refCount
    {
      refCount == 1
    }

    /** Everything but the counts is the same. */
    ghost predicate Copies(n: Node)
      reads this, n
    {
      && kind == n.kind && left == n.left && right == n.right && hash == n.hash
      && model == n.model && hashed == n.hashed
    }

    method SetChild(b: bool, x: Node?)
      modifies this`left, this`right
      ensures Child(b) == x && Child(!b) == old(Child(!b))
    {
      if b {
        left := x;
      } else {
        right := x;
      }
    }

    method Rehash(h: Hasher)
      modifies this`hash
      ensures if (kind.BranchNode? || kind.Genitor?) && left != null && right != null
        then hash == h.node(old(left.HashOf(h)), old(right.HashOf(h)))
        else hash == old(hash)
    {
      if kind.BranchNode? || kind.Genitor? {
        if left != null && right != null {
          hash := h.node(left.HashOf(h), right.HashOf(h));
        }
      }
    }
  }

  class Heap {
    const h: Hasher
    ghost var nodes: set<Node>
    ghost var tries: set<MerkleTrie>

    constructor (h: Hasher)
      ensures this.h == h && Valid() && nodes == {} && tries == {}
    {
      this.h := h;
      nodes := {};
      tries := {};
    }

    // ---------------------------------------------------------------- the invariant

    static ghost function Only(n: Node?): set<Node> {
      if n == null then {} else {n}
    }

    ghost function Children(n: Node): set<Node>
      reads n`left, n`right
    {
      Only(n.left) + Only(n.right)
    }

    /** A live node is made up properly, and its ghost fields describe what is below it. */
    ghost predicate WellMade(n: Node)
      reads this`nodes, n`left, n`right, n`hash, n`model, n`hashed
      reads (Children(n) * nodes)`hash, (Children(n) * nodes)`model, (Children(n) * nodes)`hashed
    {
      match n.kind
      case EndNode => n.left == null && n.right == null
      case LeafNode(e) => n.left == null && n.right == null && n.model == Leaf(e) && n.hashed
      case BranchNode(key, depth) =>
        && n.left != null && n.right != null
        && n.left in nodes && n.right in nodes && n.left.Inner() && n.right.Inner()
        && n.model == Branch(n.left.model, n.right.model, key, depth) && n.model.Valid()
        && (n.hashed ==> n.left.hashed && n.right.hashed && n.hash == h.node(n.left.HashOf(h), n.right.HashOf(h)))
      case Genitor =>
        && n.right != null && n.right in nodes && n.right.kind.EndNode?
        && (n.left != null ==> n.left in nodes && n.left.Inner() && n.left.model.Valid())
    }

    /** Nothing has changed but one node's hash. */
    twostate predicate OnlyHashed(n: Node)
      reads this`nodes, nodes
    {
      && nodes == old(nodes)
      && (forall m {:trigger m.left} {:trigger m.right} {:trigger m.model} | m in nodes ::
            m.left == old(m.left) && m.right == old(m.right) && m.model == old(m.model))
      && forall m {:trigger m.hash} {:trigger m.hashed} | m in nodes && m != n :: m.hash == old(m.hash) && m.hashed == old(m.hashed)
    }

    /** A new hash does no harm where it is the old one, or where nobody relies on it. */
    twostate lemma HashedStillWellMade(n: Node, new m: Node)
      requires n in nodes && m in nodes && OnlyHashed(n) && m in old(nodes) && old(WellMade(m)) && (m == n ==> WellMade(n))
      requires (old(n.hashed) ==> n.hashed && n.hash == old(n.hash)) || n !in Children(m) || !m.hashed || m.kind.Genitor?
      ensures WellMade(m)
    {
    }

    /** A slot that really points at a node. */
    ghost predicate Holds(s: Slot, n: Node)
      reads this`nodes, this`tries, nodes`left, nodes`right, tries`genitor
    {
      match s
      case Field(m, b) => m in nodes && m.Child(b) == n
      case Handle(t) => t in tries && t.genitor == n
    }

    /** A node's count is the number of pointers to it, and only an orphan has none. The pending slots
        have already let go of their nodes but have not yet been discounted. */
    ghost predicate Tallied(n: Node, pending: set<(Slot, Node)>, orphan: Node?)
      reads this`nodes, this`tries, nodes`left, nodes`right, tries`genitor, n`refCount, n`holders
    {
      && n.refCount == |n.holders|
      && (n.holders == {} ==> n == orphan)
      && forall s {:trigger Holds(s, n)} {:trigger s in n.holders} | s in n.holders :: (s, n) in pending || Holds(s, n)
    }

    /** A pointer field is null, or counted by a live node. */
    ghost predicate Claimed(n: Node, b: bool, pending: set<(Slot, Node)>)
      reads this`nodes, n`left, n`right, nodes`holders
    {
      n.Child(b) != null ==>
        n.Child(b) in nodes && Field(n, b) in n.Child(b).holders && (Field(n, b), n.Child(b)) !in pending
    }

    ghost predicate Handled(t: MerkleTrie, pending: set<(Slot, Node)>)
      reads this`nodes, t`genitor, nodes`holders
    {
      t.genitor in nodes && t.genitor.kind.Genitor? && t.genitor.holders == {Handle(t)} && (Handle(t), t.genitor) !in pending
    }

    ghost predicate Counted(pending: set<(Slot, Node)>, orphan: Node?)
      reads this`nodes, this`tries, nodes`left, nodes`right, nodes`refCount, nodes`holders, tries`genitor
    {
      && (forall n {:trigger Tallied(n, pending, orphan)} | n in nodes :: Tallied(n, pending, orphan))
      && (forall n, b {:trigger Claimed(n, b, pending)} | n in nodes :: Claimed(n, b, pending))
      && (forall t {:trigger Handled(t, pending)} | t in tries :: Handled(t, pending))
    }

    ghost predicate AllWellMade()
      reads this`nodes, nodes`left, nodes`right, nodes`hash, nodes`model, nodes`hashed
    {
      forall n {:trigger WellMade(n)} | n in nodes :: WellMade(n)
    }

    ghost predicate Structure(pending: set<(Slot, Node)>)
      reads this`nodes, this`tries, nodes, tries`genitor
    {
      AllWellMade() && Counted(pending, null)
    }

    ghost predicate TrieOk(t: MerkleTrie)
      reads this`nodes, nodes`left, nodes`hashed, t`root, t`genitor, t`authenticated
    {
      && t.heap == this && t.genitor in nodes && t.root == t.genitor.left
      && (t.authenticated && t.root != null ==> t.root in nodes && t.root.hashed)
    }

    /** Everything is in order, except perhaps the root pointer and hashes of one trie. */
    ghost predicate ValidBut(t: MerkleTrie?)
      reads this, nodes, tries
    {
      Structure({}) && forall u | u in tries && u != t :: TrieOk(u)
    }

    ghost predicate Valid()
      reads this, nodes, tries
    {
      ValidBut(null)
    }

    /** The fields WellMade looks at, apart from the pointers. */
    twostate predicate Described(new n: Node)
      requires n in old(nodes)
      reads n
    {
      n.model == old(n.model) && n.hash == old(n.hash) && n.hashed == old(n.hashed)
    }

    twostate lemma UntouchedStaysWellMade(new n: Node)
      requires n in old(nodes) && n in nodes && nodes >= old(nodes) && old(WellMade(n))
      requires n.left == old(n.left) && n.right == old(n.right) && Described(n)
      requires forall c {:trigger Described(c)} | c in Children(n) && c in old(nodes) :: Described(c)
      ensures WellMade(n)
    {
      assert n.left != null && n.left in old(nodes) ==> Described(n.left);
      assert n.right != null && n.right in old(nodes) ==> Described(n.right);
    }

    lemma HandlesLive()
      requires Counted({}, null)
      ensures forall t {:trigger t.genitor} | t in tries :: t.genitor in nodes && t.genitor.kind.Genitor? && t.genitor.holders == {Handle(t)}
    {
      forall t | t in tries
        ensures t.genitor in nodes && t.genitor.kind.Genitor? && t.genitor.holders == {Handle(t)}
      {
        assert Handled(t, {});
      }
    }

    // ---------------------------------------------------------------- letting go

    /** The pointers a node holds, each with its target. */
    ghost function Claims(n: Node): set<(Slot, Node)>
      reads n`left, n`right
    {
      (if n.left != null then {(Field(n, true), n.left)} else {})
      + (if n.right != null then {(Field(n, false), n.right)} else {})
    }

    method Discount(n: Node, ghost s: Slot, ghost pending: set<(Slot, Node)>)
      requires n in nodes && s in n.holders && (s, n) !in pending && !Holds(s, n)
      requires Structure(pending + {(s, n)})
      modifies n`refCount, n`holders
      ensures n.holders == old(n.holders) - {s} && n.refCount == old(n.refCount) - 1
      ensures AllWellMade() && Counted(pending, if n.refCount == 0 then n else null)
      ensures n.refCount == 0 <==> n.holders == {}
    {
      ghost var before := pending + {(s, n)};
      assert Tallied(n, before, null);
      assert n.holders == (n.holders - {s}) + {s};
      n.refCount := n.refCount - 1;
      n.holders := n.holders - {s};
      ghost var orphan := if n.refCount == 0 then n else null;
      forall m | m in nodes
        ensures Tallied(m, pending, orphan)
      {
        assert old(Tallied(m, before, null));
        forall g | g in m.holders
          ensures (g, m) in pending || Holds(g, m)
        {
          assert (g, m) in before || old(Holds(g, m));
        }
      }
      forall m, b | m in nodes
        ensures Claimed(m, b, pending)
      {
        assert old(Claimed(m, b, before));
      }
      forall t | t in tries
        ensures Handled(t, pending)
      {
        assert old(Handled(t, before));
      }
    }

    twostate lemma ForgettingKeepsModels(new n: Node)
      requires n in old(nodes) && nodes == old(nodes) - {n}
      requires old(AllWellMade()) && forall m | m in nodes :: m.left != n && m.right != n
      requires forall m {:trigger m.model} {:trigger m.hashed} {:trigger m.hash} {:trigger m.left} {:trigger m.right} | m in nodes ::
        && m.model == old(m.model) && m.hash == old(m.hash) && m.hashed == old(m.hashed)
        && m.left == old(m.left) && m.right == old(m.right)
      ensures AllWellMade()
    {
      forall m | m in nodes
        ensures WellMade(m)
      {
        assert old(WellMade(m));
      }
    }

    twostate lemma ForgettingKeepsCounts(new n: Node, pending: set<(Slot, Node)>)
      requires n in old(nodes) && nodes == old(nodes) - {n} && tries == old(tries) && n.holders == {}
      requires old(Counted(pending, n)) && forall m | m in nodes :: m.left != n && m.right != n
      requires forall m {:trigger m.left} {:trigger m.right} {:trigger m.holders} {:trigger m.refCount} | m in old(nodes) ::
        m.left == old(m.left) && m.right == old(m.right) && m.holders == old(m.holders) && m.refCount == old(m.refCount)
      requires forall t {:trigger t.genitor} | t in tries :: t.genitor == old(t.genitor)
      ensures Counted(pending + Claims(n), null)
    {
      ghost var after := pending + Claims(n);
      forall m | m in nodes
        ensures Tallied(m, after, null)
      {
        assert old(Tallied(m, pending, n));
        forall s | s in m.holders
          ensures (s, m) in after || Holds(s, m)
        {
          assert (s, m) in pending || old(Holds(s, m));
        }
      }
      forall m, b | m in nodes
        ensures Claimed(m, b, after)
      {
        assert old(Claimed(m, b, pending));
      }
      forall t | t in tries
        ensures Handled(t, after)
      {
        assert old(Handled(t, pending));
      }
    }

    /** Freeing a node nobody points at leaves its own claims to be discounted. */
    ghost method Forget(n: Node, pending: set<(Slot, Node)>)
      requires n in nodes && n.holders == {}
      requires AllWellMade() && Counted(pending, n)
      modifies this`nodes
      ensures nodes == old(nodes) - {n}
      ensures Structure(pending + Claims(n))
      ensures n.left != null ==> n.left in nodes && Field(n, true) in n.left.holders && (Field(n, true), n.left) !in pending
      ensures n.right != null ==> n.right in nodes && Field(n, false) in n.right.holders && (Field(n, false), n.right) !in pending
    {
      assert WellMade(n) && Claimed(n, true, pending) && Claimed(n, false, pending);
      forall m | m in nodes
        ensures m.left != n && m.right != n
      {
        assert Claimed(m, true, pending) && Claimed(m, false, pending);
      }
      nodes := nodes - {n};
      ForgettingKeepsModels(n);
      ForgettingKeepsCounts(n, pending);
    }

    /** Take a pointer off a node's count. At zero the node is deleted and lets go of its own children. */
    method Unref(n: Node, ghost s: Slot, ghost pending: set<(Slot, Node)>)
      requires n in nodes && s in n.holders && (s, n) !in pending && !Holds(s, n)
      requires Structure(pending + {(s, n)})
      modifies this`nodes, nodes`refCount, nodes`holders
      ensures Structure(pending)
      ensures nodes <= old(nodes)
      ensures forall m, g | m in old(nodes) && g in old(m.holders) && (g, m) in pending :: m in nodes && g in m.holders
      ensures forall m {:trigger m.holders} | m in nodes :: m.holders <= old(m.holders)
      ensures old(n.refCount) > 1 ==>
        && nodes == old(nodes) && n.holders == old(n.holders) - {s}
        && forall m | m in nodes && m != n :: m.holders == old(m.holders)
      decreases if n.kind.Genitor? then 1 else 0, n.model
    {
      assert WellMade(n);
      Discount(n, s, pending);
      if n.refCount == 0 {
        Forget(n, pending);
        ghost var rest: set<(Slot, Node)> := if n.left != null then {(Field(n, true), n.left)} else {};
        if n.right != null {
          assert pending + Claims(n) == (pending + rest) + {(Field(n, false), n.right)};
          Unref(n.right, Field(n, false), pending + rest);
        } else {
          assert pending + Claims(n) == pending + rest;
        }
        if n.left != null {
          Unref(n.left, Field(n, true), pending);
        } else {
          assert pending + rest == pending;
        }
      }
    }

    // ---------------------------------------------------------------- taking hold

    method Ref(n: Node?, ghost s: Slot)
      modifies Only(n)`refCount, Only(n)`holders
      ensures n != null ==> n.refCount == old(n.refCount) + 1 && n.holders == old(n.holders) + {s}
    {
      if n != null {
        n.refCount := n.refCount + 1;
        n.holders := n.holders + {s};
      }
    }

    /** The only difference from the old state: x has joined, and its children count its pointers. */
    twostate predicate Joined(new x: Node)
      reads this`nodes, x, nodes
    {
      && x !in old(nodes) && nodes == old(nodes) + {x}
      && (forall n {:trigger n.left} {:trigger n.right} | n in old(nodes) :: n.left == old(n.left) && n.right == old(n.right))
      && forall n {:trigger n.holders} {:trigger n.refCount} | n in old(nodes) ::
           && (n == x.left ==> n.holders == old(n.holders) + {Field(x, true)} && n.refCount == old(n.refCount) + 1)
           && (n == x.right ==> n.holders == old(n.holders) + {Field(x, false)} && n.refCount == old(n.refCount) + 1)
           && (n != x.left && n != x.right ==> n.holders == old(n.holders) && n.refCount == old(n.refCount))
    }

    twostate lemma JoinTallies(new x: Node, orphan: Node?)
      requires Joined(x) && tries == old(tries) && forall t | t in tries :: t.genitor == old(t.genitor)
      requires x.right != null ==> x.right != x.left
      requires orphan != null ==> orphan == x.left || orphan == x.right
      requires x.refCount == |x.holders| == 0
      requires old(Counted({}, orphan))
      ensures forall n {:trigger Tallied(n, {}, x)} | n in nodes :: Tallied(n, {}, x)
    {
      ghost var none: set<(Slot, Node)> := {};
      forall n | n in nodes
        ensures Tallied(n, none, x)
      {
        if n != x {
          assert old(Tallied(n, none, orphan));
          forall s | s in n.holders
            ensures Holds(s, n)
          {
            assert s in old(n.holders) ==> old(Holds(s, n));
          }
        }
      }
    }

    twostate lemma JoinKeepsModels(new x: Node)
      requires Joined(x) && old(AllWellMade())
      requires forall n {:trigger Described(n)} | n in old(nodes) :: Described(n)
      ensures forall n {:trigger WellMade(n)} | n in old(nodes) :: WellMade(n)
    {
      forall n | n in old(nodes)
        ensures WellMade(n)
      {
        assert old(WellMade(n));
        UntouchedStaysWellMade(n);
      }
    }

    twostate lemma JoinClaims(new x: Node, orphan: Node?)
      requires Joined(x)
      requires x.left != null ==> x.left in old(nodes)
      requires x.right != null ==> x.right in old(nodes)
      requires old(Counted({}, orphan))
      ensures forall n, b {:trigger Claimed(n, b, {})} | n in nodes :: Claimed(n, b, {})
    {
      ghost var none: set<(Slot, Node)> := {};
      forall n, b | n in nodes
        ensures Claimed(n, b, none)
      {
        if n != x {
          assert old(Claimed(n, b, none));
        }
      }
    }

    /** A freshly built node joins the heap: its children count its pointers, and nobody points at it yet. */
    method Join(x: Node, ghost orphan: Node?)
      requires x !in nodes && x.refCount == 0 && x.holders == {}
      requires AllWellMade() && Counted({}, orphan)
      requires x.left != null ==> x.left in nodes && !x.left.kind.Genitor?
      requires x.right != null ==> x.right in nodes && !x.right.kind.Genitor? && x.right != x.left
      requires orphan != null ==> orphan == x.left || orphan == x.right
      modifies this`nodes, Children(x)`refCount, Children(x)`holders
      ensures Joined(x) && x.refCount == |x.holders| == 0
      ensures Counted({}, x)
      ensures forall n {:trigger WellMade(n)} | n in old(nodes) :: WellMade(n)
    {
      ghost var none: set<(Slot, Node)> := {};
      nodes := nodes + {x};
      Ref(x.left, Field(x, true));
      Ref(x.right, Field(x, false));
      JoinTallies(x, orphan);
      JoinClaims(x, orphan);
      JoinKeepsModels(x);
      forall t | t in tries
        ensures Handled(t, none)
      {
        assert old(Handled(t, none));
      }
    }

    /** The only difference from the old state: p's child field points at x, which counts it. */
    twostate predicate Repointed(new p: Node, b: bool, new x: Node?)
      reads this`nodes, nodes, p
    {
      && nodes == old(nodes) && p in old(nodes)
      && p.Child(b) == x && p.Child(!b) == old(p.Child(!b))
      && (forall n {:trigger n.left} {:trigger n.right} | n in nodes && n != p :: n.left == old(n.left) && n.right == old(n.right))
      && (forall n {:trigger n.holders} {:trigger n.refCount} | n in nodes && n != x ::
           n.holders == old(n.holders) && n.refCount == old(n.refCount))
      && (x != null && x in old(nodes) ==>
           x.holders == old(x.holders) + {Field(p, b)} && Field(p, b) !in old(x.holders) && x.refCount == old(x.refCount) + 1)
    }

    /** What the old target of a child field still has to be discounted for. */
    ghost function Owed(p: Node, b: bool, c: Node?): set<(Slot, Node)> {
      if c == null then {} else {(Field(p, b), c)}
    }

    twostate lemma RepointTallies(new p: Node, b: bool, new x: Node?, new orphan: Node?)
      requires p in old(nodes) && p in nodes && (x != null ==> x in old(nodes) && x in nodes) && Repointed(p, b, x)
      requires tries == old(tries) && forall t | t in tries :: t.genitor == old(t.genitor)
      requires orphan != null ==> orphan == x && orphan in old(nodes)
      requires old(Counted({}, orphan))
      ensures var c := old(p.Child(b));
        forall n {:trigger Tallied(n, Owed(p, b, c), null)} | n in nodes :: Tallied(n, Owed(p, b, c), null)
    {
      ghost var none: set<(Slot, Node)> := {};
      ghost var after := Owed(p, b, old(p.Child(b)));
      forall n | n in nodes
        ensures Tallied(n, after, null)
      {
        assert old(Tallied(n, none, orphan));
        forall s | s in n.holders
          ensures (s, n) in after || Holds(s, n)
        {
          assert s in old(n.holders) ==> old(Holds(s, n));
        }
      }
    }

    twostate lemma RepointClaims(new p: Node, b: bool, new x: Node?, new orphan: Node?)
      requires p in old(nodes) && p in nodes && (x != null ==> x in old(nodes) && x in nodes && x != old(p.Child(b))) && Repointed(p, b, x)
      requires orphan != null ==> orphan == x && orphan in old(nodes)
      requires old(Counted({}, orphan))
      ensures var c := old(p.Child(b));
        forall n, d {:trigger Claimed(n, d, Owed(p, b, c))} | n in nodes :: Claimed(n, d, Owed(p, b, c))
    {
      ghost var none: set<(Slot, Node)> := {};
      ghost var after := Owed(p, b, old(p.Child(b)));
      forall n, d | n in nodes
        ensures Claimed(n, d, after)
      {
        assert old(Claimed(n, d, none));
      }
    }

    /** The first half of assigning to a child field: point it elsewhere and count the new pointer. The
        old target is still to be discounted. */
    method Repoint(p: Node, b: bool, x: Node?, ghost orphan: Node?)
      requires p in nodes && (p.kind.BranchNode? || p.kind.Genitor?)
      requires x != null ==> x in nodes && !x.kind.Genitor? && x != p.Child(b)
      requires orphan != null ==> orphan == x
      requires Counted({}, orphan)
      modifies p`left, p`right, Only(x)`refCount, Only(x)`holders
      ensures Repointed(p, b, x)
      ensures Counted(Owed(p, b, old(p.Child(b))), null)
      ensures var c := old(p.Child(b));
        c != null ==> c in nodes && Field(p, b) in c.holders && !Holds(Field(p, b), c)
    {
      ghost var none: set<(Slot, Node)> := {};
      ghost var c := p.Child(b);
      assert Claimed(p, b, none) && (x != null ==> Tallied(x, none, orphan));
      assert x != null && Field(p, b) in x.holders ==> Holds(Field(p, b), x);
      p.SetChild(b, x);
      Ref(x, Field(p, b));
      RepointTallies(p, b, x, orphan);
      RepointClaims(p, b, x, orphan);
      forall t | t in tries
        ensures Handled(t, Owed(p, b, c))
      {
        assert old(Handled(t, none));
      }
    }

    /** A node's children differ from each other and from it. */
    lemma ChildrenDiffer(n: Node)
      requires WellMade(n)
      ensures n.left != null ==> n.left != n && n.left != n.right
      ensures n.right != null ==> n.right != n
    {
      if n.kind.BranchNode? {
        assert n.model.left < n.model && n.model.right < n.model;
        assert n.model.left.Key() > n.model.right.Key();
      }
    }

    // ---------------------------------------------------------------- cloning

    /** The copy constructor of a branch node: the copy shares the original's children. */
    method Clone(c: Node) returns (copy: Node)
      requires Structure({}) && c in nodes && c.kind.BranchNode?
      modifies this`nodes, nodes`refCount, nodes`holders
      ensures AllWellMade() && Counted({}, copy) && fresh(copy) && nodes == old(nodes) + {copy}
      ensures copy.Copies(c) && copy.refCount == 0 && copy.holders == {}
      ensures c.holders == old(c.holders) && c.refCount == old(c.refCount)
      ensures forall n {:trigger n.holders} | n in old(nodes) && n != c.left && n != c.right :: n.holders == old(n.holders)
    {
      assert WellMade(c) && Claimed(c, true, {}) && Claimed(c, false, {});
      ChildrenDiffer(c);
      copy := new Node(c.kind, c.left, c.right, c.hash, c.model, c.hashed);
      Join(copy, null);
      assert WellMade(c) && WellMade(copy);
    }

    twostate lemma ReplacingKeepsModels(new p: Node, b: bool, new copy: Node)
      requires p in old(nodes) && copy in old(nodes) && p in nodes
      requires Repointed(p, b, copy)
      requires old(AllWellMade()) && old(p.Child(b) != null && copy.Copies(p.Child(b)) && p.Child(b).kind.BranchNode?)
      requires forall n {:trigger n.model} {:trigger n.hashed} {:trigger n.hash} | n in nodes ::
        n.model == old(n.model) && n.hash == old(n.hash) && n.hashed == old(n.hashed)
      ensures AllWellMade()
    {
      assert old(WellMade(p));
      forall n | n in nodes
        ensures WellMade(n)
      {
        assert old(WellMade(n));
      }
    }

    /** Assigning a child field a node that copies the present target changes no model and no hash. */
    method ReplaceShared(p: Node, b: bool, copy: Node)
      requires AllWellMade() && Counted({}, copy)
      requires p in nodes && copy in nodes && (p.kind.BranchNode? || p.kind.Genitor?) && copy.holders == {}
      requires var c := p.Child(b); c != null && c != copy && c.kind.BranchNode? && copy.Copies(c) && c.refCount > 1
      modifies p`left, p`right, nodes`refCount, nodes`holders, this`nodes
      ensures Structure({}) && nodes == old(nodes)
      ensures p.Child(b) == copy && p.Child(!b) == old(p.Child(!b))
      ensures copy.holders == {Field(p, b)} && copy.refCount == 1
      ensures forall n {:trigger n.holders} | n in nodes && n != copy && n != old(p.Child(b)) :: n.holders == old(n.holders)
    {
      var c := p.Child(b);
      assert WellMade(p) && Claimed(p, b, {});
      Repoint(p, b, copy, copy);
      ReplacingKeepsModels(p, b, copy);
      assert {} + {(Field(p, b), c)} == Owed(p, b, c);
      Unref(c, Field(p, b), {});
      assert Tallied(copy, {}, null);
    }

    /** The only difference from the old state: a copy has taken the place of p's child. */
    twostate predicate Cloned(new p: Node, b: bool, new copy: Node)
      reads this`nodes, nodes, p, copy
    {
      && p in old(nodes) && copy !in old(nodes) && nodes == old(nodes) + {copy}
      && p.Child(b) == copy && p.Child(!b) == old(p.Child(!b))
      && (forall n {:trigger n.left} {:trigger n.right} | n in old(nodes) && n != p ::
            n.left == old(n.left) && n.right == old(n.right))
      && (forall n {:trigger n.model} {:trigger n.hashed} {:trigger n.hash} | n in old(nodes) ::
            n.model == old(n.model) && n.hash == old(n.hash) && n.hashed == old(n.hashed))
      && var c := old(p.Child(b));
         && c != null && c in old(nodes) && c != p && c.kind.BranchNode?
         && copy.kind == c.kind && copy.left == old(c.left) && copy.right == old(c.right)
         && copy.model == old(c.model) && copy.hashed == old(c.hashed)
         && copy.holders == {Field(p, b)}
         && forall n {:trigger n.holders} | n in old(nodes) && n != c && n != old(c.left) && n != old(c.right) ::
              n.holders == old(n.holders)
    }

    /** Replace a shared child by a copy of its own. */
    method CloneChild(p: Node, b: bool) returns (copy: Node)
      requires Structure({}) && p in nodes && (p.kind.BranchNode? || p.kind.Genitor?)
      requires p.Child(b) != null && p.Child(b).kind.BranchNode? && !p.Child(b).Unique()
      modifies this`nodes, p`left, p`right, nodes`refCount, nodes`holders
      ensures Structure({}) && fresh(copy) && Cloned(p, b, copy)
    {
      var c := p.Child(b);
      assert WellMade(p) && Claimed(p, b, {}) && Tallied(c, {}, null);
      ChildrenDiffer(p);
      copy := Clone(c);
      ReplaceShared(p, b, copy);
    }

    // ---------------------------------------------------------------- handles

    static ghost function Blank(): Trie {
      Leaf(Elem(0, 0, [], 0, 0, 0))
    }

    method NewEnd() returns (end: Node)
      requires Structure({})
      modifies this`nodes
      ensures AllWellMade() && Counted({}, end) && fresh(end) && end in nodes && nodes == old(nodes) + {end}
      ensures end.kind.EndNode? && end.holders == {} && end.refCount == 0
    {
      end := new Node(EndNode, null, null, NO_HASH, Blank(), false);
      Join(end, null);
      assert WellMade(end);
    }

    /** A fresh genitor over a root that it comes to share. Nobody points at it yet. */
    method NewGenitor(root: Node?) returns (g: Node)
      requires Structure({})
      requires root != null ==> root in nodes && root.Inner() && root.model.Valid()
      modifies this`nodes, Only(root)`refCount, Only(root)`holders
      ensures AllWellMade() && Counted({}, g) && fresh(g) && g in nodes
      ensures g.kind.Genitor? && g.left == root && g.holders == {} && g.refCount == 0
      ensures nodes >= old(nodes) && fresh(nodes - old(nodes))
    {
      var end := NewEnd();
      g := new Node(Genitor, root, end, NO_HASH, Blank(), false);
      Join(g, end);
      assert WellMade(g);
    }

    /** A new trie takes hold of its genitor. */
    method Adopt(t: MerkleTrie)
      requires AllWellMade() && Counted({}, t.genitor) && t !in tries
      requires t.genitor in nodes && t.genitor.kind.Genitor? && t.genitor.holders == {} && t.genitor.refCount == 0
      modifies this`tries, t.genitor`refCount, t.genitor`holders
      ensures Structure({}) && tries == old(tries) + {t}
    {
      ghost var none: set<(Slot, Node)>, g := {}, t.genitor;
      tries := tries + {t};
      Ref(t.genitor, Handle(t));
      forall n | n in nodes
        ensures Tallied(n, none, null)
      {
        assert old(Tallied(n, none, g));
        forall s | s in n.holders
          ensures Holds(s, n)
        {
          assert s in old(n.holders) ==> old(Holds(s, n));
        }
      }
      forall n, b | n in nodes
        ensures Claimed(n, b, none)
      {
        assert old(Claimed(n, b, none));
      }
      forall u | u in tries
        ensures Handled(u, none)
      {
        assert u != t ==> old(Handled(u, none));
      }
    }

    /** A new trie does not disturb the others. */
    twostate lemma StillInOrder(new t: MerkleTrie)
      requires old(Valid()) && Structure({}) && tries == old(tries) + {t} && nodes >= old(nodes) && TrieOk(t)
      requires forall u {:trigger u.genitor} | u in old(tries) ::
        u.root == old(u.root) && u.genitor == old(u.genitor) && u.authenticated == old(u.authenticated)
      requires forall n {:trigger n.left} {:trigger n.hashed} | n in old(nodes) :: n.left == old(n.left) && n.hashed == old(n.hashed)
      ensures Valid()
    {
      forall u | u in tries
        ensures TrieOk(u)
      {
        assert u != t ==> old(TrieOk(u));
      }
    }
  }

  class MerkleTrie {
    const heap: Heap
    var root: Node?
    var genitor: Node
    var authenticated: bool

    /** An empty trie. */
    constructor (heap: Heap)
      requires heap.Valid()
      modifies heap`nodes, heap`tries
      ensures this.heap == heap && heap.Valid() && heap.tries == old(heap.tries) + {this}
      ensures heap.nodes >= old(heap.nodes) && fresh(heap.nodes - old(heap.nodes))
      ensures Value() == Empty && !authenticated
    {
      var g := heap.NewGenitor(null);
      this.heap := heap;
      genitor := g;
      root := null;
      authenticated := false;
      new;
      heap.Adopt(this);
      heap.StillInOrder(this);
    }

    /** A snapshot: a new genitor over the same root. */
    constructor Copy(trie: MerkleTrie)
      requires trie.heap.Valid() && trie in trie.heap.tries
      modifies trie.heap`nodes, trie.heap`tries, Heap.Only(trie.root)`refCount, Heap.Only(trie.root)`holders
      ensures heap == trie.heap && heap.Valid() && heap.tries == old(trie.heap.tries) + {this}
      ensures heap.nodes >= old(trie.heap.nodes) && fresh(heap.nodes - old(trie.heap.nodes))
      ensures Value() == old(trie.Value()) && authenticated == trie.authenticated
    {
      assert trie.heap.TrieOk(trie);
      trie.heap.HandlesLive();
      assert trie.heap.WellMade(trie.genitor);
      var g := trie.heap.NewGenitor(trie.root);
      heap := trie.heap;
      genitor := g;
      root := trie.root;
      authenticated := trie.authenticated;
      new;
      heap.Adopt(this);
      heap.StillInOrder(this);
    }

    /** The trie this object stands for. */
    ghost function Value(): Root
      reads this`genitor, genitor`left, (if genitor.left == null then {} else {genitor.left})`model
    {
      if genitor.left == null then Empty else Full(genitor.left.model)
    }

    // ---------------------------------------------------------------- find

    /** A node on the way of a search for k, with the remaining directions and the outcome. */
    ghost predicate OnTheWay(n: Node, dirs: Path, k: Key, hit: bool)
      reads heap`nodes, n`model
    {
      && n in heap.nodes && n.Inner() && n.model.Accepts(k)
      && FindFrom(n.model, k).path == dirs && FindFrom(n.model, k).Found? == hit
    }

    /** One node of a path points at the next. */
    ghost predicate Linked(path: seq<Node>, dirs: Path, i: nat)
      requires i < |dirs| == |path| - 1
      reads path`left, path`right
    {
      path[i].Child(dirs[i]) == path[i + 1]
    }

    /** path runs from the genitor along dirs, node by node, and dirs is the way a search for k takes. */
    ghost predicate Searches(path: seq<Node>, dirs: Path, k: Key, hit: bool)
      reads this`genitor, heap, heap.nodes
    {
      && |path| == |dirs| + 1 && path[0] == genitor && genitor in heap.nodes && genitor.kind.Genitor?
      && (forall i {:trigger path[i]} | 0 <= i < |path| :: path[i] in heap.nodes)
      && (forall i {:trigger path[i]} | 1 <= i < |path| :: OnTheWay(path[i], dirs[i..], k, hit))
      && (forall i {:trigger Linked(path, dirs, i)} | 0 <= i < |dirs| :: Linked(path, dirs, i))
      && (dirs != [] ==> dirs[0])
    }

    /** The node at an index of a path occurs nowhere else on it. */
    static predicate Apart(path: seq<Node>, i: nat)
      requires i < |path|
    {
      forall j {:trigger path[j]} | 0 <= j < |path| && j != i :: path[j] != path[i]
    }

    /** Nodes further down a search path have less of it left, so no node occurs twice. */
    lemma PathNodesDiffer(path: seq<Node>, dirs: Path, k: Key, hit: bool, i: nat)
      requires Searches(path, dirs, k, hit) && i < |path|
      ensures Apart(path, i)
    {
      forall j | 0 <= j < |path| && j != i
        ensures path[j] != path[i]
      {
        assert (i > 0 ==> OnTheWay(path[i], dirs[i..], k, hit)) && (j > 0 ==> OnTheWay(path[j], dirs[j..], k, hit));
        assert |dirs[i..]| != |dirs[j..]|;
      }
    }

    /** All but the last node of a search path, below the genitor, are branches. */
    lemma PathBranches(path: seq<Node>, dirs: Path, k: Key, hit: bool, i: nat)
      requires Searches(path, dirs, k, hit) && heap.AllWellMade() && 1 <= i < |path|
      ensures i < |path| - 1 ==> path[i].kind.BranchNode? && path[i].model.Branch?
      ensures path[i].kind.LeafNode? <==> path[i].model.Leaf?
    {
      assert OnTheWay(path[i], dirs[i..], k, hit) && heap.WellMade(path[i]);
    }

    /** The part of a search path below the genitor. */
    ghost predicate Chain(found: seq<Node>, dirs: Path, k: Key, hit: bool)
      reads heap, heap.nodes
    {
      && |found| == |dirs| + 1
      && (forall i {:trigger found[i]} | 0 <= i < |found| :: found[i] in heap.nodes)
      && (forall i {:trigger found[i]} | 0 <= i < |found| :: OnTheWay(found[i], dirs[i..], k, hit))
      && (forall i {:trigger Linked(found, dirs, i)} | 0 <= i < |dirs| :: Linked(found, dirs, i))
    }

    lemma ChainOneOn(n: Node, rest: seq<Node>, dirs: Path, k: Key, hit: bool, i: nat)
      requires dirs != [] && Chain(rest, dirs[1..], k, hit) && i < |rest|
      ensures var found := [n] + rest; found[i + 1] in heap.nodes && OnTheWay(found[i + 1], dirs[i + 1..], k, hit)
    {
      assert rest[i] in heap.nodes && OnTheWay(rest[i], dirs[1..][i..], k, hit);
      assert dirs[1..][i..] == dirs[i + 1..];
    }

    lemma LinkedOneOn(n: Node, rest: seq<Node>, dirs: Path, i: nat)
      requires |rest| == |dirs| && i + 1 < |dirs| && Linked(rest, dirs[1..], i)
      ensures Linked([n] + rest, dirs, i + 1)
    {
    }

    lemma ChainGrows(n: Node, rest: seq<Node>, dirs: Path, k: Key, hit: bool)
      requires OnTheWay(n, dirs, k, hit) && dirs != [] && Chain(rest, dirs[1..], k, hit) && n.Child(dirs[0]) == rest[0]
      ensures Chain([n] + rest, dirs, k, hit)
    {
      var found := [n] + rest;
      assert dirs[0..] == dirs;
      forall i | 0 <= i < |found|
        ensures found[i] in heap.nodes && OnTheWay(found[i], dirs[i..], k, hit)
      {
        if i > 0 {
          ChainOneOn(n, rest, dirs, k, hit, i - 1);
        }
      }
      forall i | 0 <= i < |dirs|
        ensures Linked(found, dirs, i)
      {
        if i > 0 {
          LinkedOneOn(n, rest, dirs, i - 1);
        }
      }
    }

    static lemma PathEnds(n: Node, rest: seq<Node>)
      requires rest != []
      ensures var found := [n] + rest; found[0] == n && found[|found| - 1] == rest[|rest| - 1]
    {
    }

    lemma ChainEnds(n: Node, k: Key, hit: bool)
      requires OnTheWay(n, [], k, hit)
      ensures Chain([n], [], k, hit)
    {
    }

    lemma ChainFromGenitor(rest: seq<Node>, dirs: Path, k: Key, hit: bool)
      requires genitor in heap.nodes && genitor.kind.Genitor?
      requires dirs != [] && dirs[0] && Chain(rest, dirs[1..], k, hit) && genitor.left == rest[0]
      ensures Searches([genitor] + rest, dirs, k, hit)
    {
      var path := [genitor] + rest;
      forall i | 1 <= i < |path|
        ensures path[i] in heap.nodes && OnTheWay(path[i], dirs[i..], k, hit)
      {
        assert path[i] == rest[i - 1] && dirs[1..][i - 1..] == dirs[i..];
      }
      forall i | 0 <= i < |dirs|
        ensures Linked(path, dirs, i)
      {
        if i > 0 {
          assert Linked(rest, dirs[1..], i - 1);
        }
      }
    }

    /** What the test before a step into a child means for the search. */
    lemma StepsInto(n: Node, left: bool, k: Key)
      requires heap.Structure({}) && n in heap.nodes && n.kind.BranchNode? && n.model.Accepts(k) && heap.WellMade(n)
      requires Abs(n.Child(left).Compare(k)) <= n.Child(left).Depth()
      requires !left ==> Abs(n.left.Compare(k)) > n.left.Depth()
      ensures var c := n.Child(left);
        && c.model.Accepts(k) && FindFrom(n.model, k).path == [left] + FindFrom(c.model, k).path
        && FindFrom(n.model, k).Found? == FindFrom(c.model, k).Found?
    {
      assert heap.WellMade(n.left) && heap.WellMade(n.right);
    }

    /** found is the path of the search for k from n. */
    ghost predicate Reached(found: seq<Node>, n: Node, k: Key)
      requires n.model.Accepts(k)
      reads heap, heap.nodes, n
    {
      && Chain(found, FindFrom(n.model, k).path, k, FindFrom(n.model, k).Found?) && found[0] == n
      && (found[|found| - 1].kind.LeafNode? <==> FindFrom(n.model, k).Found?)
    }

    lemma ReachedThrough(n: Node, left: bool, k: Key, rest: seq<Node>)
      requires heap.Structure({}) && n in heap.nodes && n.kind.BranchNode? && n.model.Accepts(k) && heap.WellMade(n)
      requires Abs(n.Child(left).Compare(k)) <= n.Child(left).Depth()
      requires !left ==> Abs(n.left.Compare(k)) > n.left.Depth()
      requires n.Child(left).model.Accepts(k) && Reached(rest, n.Child(left), k)
      ensures Reached([n] + rest, n, k)
    {
      StepsInto(n, left, k);
      ChainGrows(n, rest, FindFrom(n.model, k).path, k, FindFrom(n.model, k).Found?);
      PathEnds(n, rest);
    }

    method Visit(n: Node, k: Key) returns (found: seq<Node>)
      requires heap.Structure({}) && n in heap.nodes && n.Inner() && n.model.Accepts(k)
      ensures Reached(found, n, k)
      decreases n.model
    {
      assert heap.WellMade(n);
      if n.kind.LeafNode? {
        if n.Compare(k) == 0 {
          found := [n];
          ChainEnds(n, k, true);
        } else {
          assert false;
        }
      } else {
        if Abs(n.left.Compare(k)) <= n.left.Depth() {
          StepsInto(n, true, k);
          found := Visit(n.left, k);
          ReachedThrough(n, true, k, found);
          found := [n] + found;
        } else if Abs(n.right.Compare(k)) <= n.right.Depth() {
          StepsInto(n, false, k);
          found := Visit(n.right, k);
          ReachedThrough(n, false, k, found);
          found := [n] + found;
        } else {
          assert heap.WellMade(n.left) && heap.WellMade(n.right);
          found := [n];
          ChainEnds(n, k, false);
        }
      }
    }

    /** The path of a search. Without a root there is none; otherwise it starts at the genitor. */
    method FindPath(k: Key) returns (path: seq<Node>)
      requires heap.Valid() && this in heap.tries
      ensures path == [] <==> root == null
      ensures path != [] ==> Searches(path, Find(Value(), k).path, k, Find(Value(), k).Found?)
      ensures path != [] ==> (path[|path| - 1].kind.LeafNode? <==> Find(Value(), k).Found?)
    {
      assert heap.TrieOk(this) && heap.Handled(this, {}) && heap.WellMade(genitor);
      if root == null {
        return [];
      }
      assert heap.WellMade(genitor.left);
      if Abs(genitor.left.Compare(k)) <= genitor.left.Depth() {
        path := Visit(genitor.left, k);
        ghost var dirs := [true] + FindFrom(genitor.left.model, k).path;
        assert dirs[1..] == FindFrom(genitor.left.model, k).path;
        ChainFromGenitor(path, dirs, k, FindFrom(genitor.left.model, k).Found?);
        path := [genitor] + path;
      } else if Abs(genitor.right.Compare(k)) <= genitor.right.Depth() {
        assert false;
      } else {
        path := [genitor];
      }
    }

    // ---------------------------------------------------------------- making a path this trie's own

    /** Below upTo every node of the path is held by its predecessor on the path and by nothing else. */
    ghost predicate Owned(path: seq<Node>, dirs: Path, upTo: nat)
      requires upTo <= |path| == |dirs| + 1
      reads path`holders
    {
      forall i {:trigger Held(path, dirs, i)} | 1 <= i < upTo :: Held(path, dirs, i)
    }

    ghost predicate Held(path: seq<Node>, dirs: Path, i: nat)
      requires 1 <= i < |path| == |dirs| + 1
      reads path`holders
    {
      path[i].holders == {Field(path[i - 1], dirs[i - 1])}
    }

    /** Other tries keep their genitors' children. */
    twostate predicate OthersKeepRoots()
      reads heap, heap.tries, heap.nodes
    {
      && heap.tries == old(heap.tries)
      && forall u {:trigger u.genitor} | u in heap.tries && u != this ::
           u.genitor == old(u.genitor) && u.genitor in heap.nodes && u.genitor in old(heap.nodes) && u.genitor.left == old(u.genitor.left)
    }

    twostate lemma CloningKeepsOthers(new p: Node, new b: bool, new copy: Node)
      requires old(heap.ValidBut(this)) && heap.Structure({}) && heap.tries == old(heap.tries)
      requires heap.Cloned(p, b, copy) && old(p == genitor || p.kind.BranchNode?)
      requires forall u {:trigger u.genitor} | u in heap.tries && u != this ::
        u.root == old(u.root) && u.genitor == old(u.genitor) && u.authenticated == old(u.authenticated)
      requires this in heap.tries && genitor == old(genitor)
      ensures heap.ValidBut(this) && OthersKeepRoots()
    {
      assert heap.Handled(this, {});
      forall u | u in heap.tries && u != this
        ensures heap.TrieOk(u) && u.genitor in old(heap.nodes) && u.genitor.left == old(u.genitor.left)
      {
        assert old(heap.TrieOk(u)) && heap.Handled(u, {});
        assert u.genitor != p;
      }
    }

    twostate lemma CloningKeepsSearch(path: seq<Node>, new dirs: Path, new k: Key, new hit: bool, new i: nat, new copy: Node)
      requires 1 <= i < |path| && genitor == old(genitor)
      requires forall j {:trigger path[j]} | 0 <= j < |path| && j != i - 1 :: path[j] != path[i - 1]
      requires old(Searches(path, dirs, k, hit)) && heap.Cloned(path[i - 1], dirs[i - 1], copy)
      ensures Searches(path[i := copy], dirs, k, hit)
    {
      var path' := path[i := copy];
      assert old(Linked(path, dirs, i - 1));
      forall j | 1 <= j < |path'|
        ensures path'[j] in heap.nodes && OnTheWay(path'[j], dirs[j..], k, hit)
      {
        CloneIsOnTheWay(path, dirs, k, hit, i, copy, j);
      }
      forall j | 0 <= j < |dirs|
        ensures Linked(path', dirs, j)
      {
        assert old(Linked(path, dirs, j));
      }
    }

    twostate lemma CloneIsOnTheWay(path: seq<Node>, new dirs: Path, new k: Key, new hit: bool, new i: nat, new copy: Node, new j: nat)
      requires 1 <= i < |path| && genitor == old(genitor) && 1 <= j < |path|
      requires old(Searches(path, dirs, k, hit)) && heap.Cloned(path[i - 1], dirs[i - 1], copy)
      ensures path[i := copy][j] in heap.nodes && OnTheWay(path[i := copy][j], dirs[j..], k, hit)
    {
      assert old(Linked(path, dirs, i - 1)) && old(OnTheWay(path[j], dirs[j..], k, hit));
    }

    twostate lemma CloningKeepsOwned(path: seq<Node>, new dirs: Path, new i: nat, new copy: Node)
      requires 1 <= i < |path| == |dirs| + 1
      requires forall j {:trigger path[j]} | 0 <= j < |path| && j != i :: path[j] != path[i]
      requires forall j {:trigger path[j]} | 0 <= j < |path| :: path[j] in old(heap.nodes)
      requires old(path[i - 1].Child(dirs[i - 1]) == path[i])
      requires old(heap.Structure({})) && old(Owned(path, dirs, i)) && heap.Cloned(path[i - 1], dirs[i - 1], copy)
      ensures Owned(path[i := copy], dirs, i + 1)
    {
      var c := path[i];
      assert old(heap.Claimed(c, true, {})) && old(heap.Claimed(c, false, {}));
      var path' := path[i := copy];
      forall j | 1 <= j < i + 1
        ensures Held(path', dirs, j)
      {
        if j < i {
          assert old(Held(path, dirs, j));
          assert path[j] != old(c.left) && path[j] != old(c.right);
        }
      }
    }

    /** Clone one shared node of the path into this trie's own. */
    method CopyStep(path: seq<Node>, ghost dirs: Path, ghost k: Key, ghost hit: bool, i: nat) returns (copy: Node)
      requires heap.ValidBut(this) && this in heap.tries
      requires Searches(path, dirs, k, hit) && 1 <= i < |path| && path[i].kind.BranchNode? && Owned(path, dirs, i)
      requires !path[i].Unique()
      modifies heap`nodes, heap.nodes`left, heap.nodes`right, heap.nodes`refCount, heap.nodes`holders
      ensures heap.ValidBut(this) && heap.nodes >= old(heap.nodes) && fresh(heap.nodes - old(heap.nodes)) && OthersKeepRoots()
      ensures copy.model == path[i].model && copy.hashed == path[i].hashed && copy.kind == path[i].kind
      ensures Searches(path[i := copy], dirs, k, hit) && Owned(path[i := copy], dirs, i + 1)
    {
      var c, p := path[i], path[i - 1];
      ghost var b := dirs[i - 1];
      assert Linked(path, dirs, i - 1) && heap.WellMade(p);
      heap.ChildrenDiffer(p);
      PathNodesDiffer(path, dirs, k, hit, i - 1);
      PathNodesDiffer(path, dirs, k, hit, i);
      assert forall j {:trigger path[j]} | 0 <= j < |path| :: path[j] in heap.nodes;
      copy := heap.CloneChild(p, p.left == c);
      assert heap.Cloned(p, b, copy);
      CloningKeepsOthers(p, b, copy);
      CloningKeepsSearch(path, dirs, k, hit, i, copy);
      CloningKeepsOwned(path, dirs, i, copy);
    }

    method OwnStep(path: seq<Node>, ghost dirs: Path, ghost k: Key, ghost hit: bool, i: nat) returns (path': seq<Node>)
      requires heap.ValidBut(this) && this in heap.tries
      requires Searches(path, dirs, k, hit) && 1 <= i < |path| && path[i].kind.BranchNode? && Owned(path, dirs, i)
      modifies heap`nodes, heap.nodes`left, heap.nodes`right, heap.nodes`refCount, heap.nodes`holders
      ensures heap.ValidBut(this) && heap.nodes >= old(heap.nodes) && fresh(heap.nodes - old(heap.nodes)) && OthersKeepRoots()
      ensures |path'| == |path| && path' == path[i := path'[i]]
      ensures path'[i].model == path[i].model && path'[i].hashed == path[i].hashed && path'[i].kind == path[i].kind
      ensures Searches(path', dirs, k, hit) && Owned(path', dirs, i + 1)
    {
      path' := path;
      if !path[i].Unique() {
        var copy := CopyStep(path, dirs, k, hit, i);
        path' := path[i := copy];
      } else {
        ghost var s := Field(path[i - 1], dirs[i - 1]);
        assert Linked(path, dirs, i - 1);
        assert heap.Tallied(path[i], {}, null) && heap.Claimed(path[i - 1], dirs[i - 1], {});
        assert |path[i].holders - {s}| == 0;
        assert path[i].holders == {s};
        assert Held(path, dirs, i);
        heap.HandlesLive();
      }
    }

    /** Node by node below the genitor, one path stands for what another stands for. */
    ghost predicate Mirrors(path: seq<Node>, found: seq<Node>)
      reads path`model, path`hashed, found`model, found`hashed
    {
      && |path| == |found|
      && forall j {:trigger path[j]} | 1 <= j < |path| ::
           path[j].model == found[j].model && path[j].hashed == found[j].hashed && path[j].kind == found[j].kind
    }

    lemma MirrorsStep(path: seq<Node>, i: nat, copy: Node, found: seq<Node>)
      requires Mirrors(path, found) && i < |path|
      requires copy.model == path[i].model && copy.hashed == path[i].hashed && copy.kind == path[i].kind
      ensures Mirrors(path[i := copy], found)
    {
    }

    /** Clone every shared node of a search path, from the root down, up to an index. The first clone
        makes the children of the cloned node shared, so everything below it is cloned in turn. */
    method OwnPath(found: seq<Node>, ghost dirs: Path, ghost k: Key, ghost hit: bool, upTo: nat) returns (path: seq<Node>)
      requires heap.ValidBut(this) && this in heap.tries
      requires Searches(found, dirs, k, hit) && 1 <= upTo <= |found|
      requires forall i {:trigger found[i]} | 1 <= i < upTo :: found[i].kind.BranchNode?
      modifies heap`nodes, heap.nodes`left, heap.nodes`right, heap.nodes`refCount, heap.nodes`holders
      ensures heap.ValidBut(this) && heap.nodes >= old(heap.nodes) && fresh(heap.nodes - old(heap.nodes)) && OthersKeepRoots()
      ensures Searches(path, dirs, k, hit) && Owned(path, dirs, upTo) && Mirrors(path, found)
      ensures path[upTo..] == found[upTo..]
      ensures upTo == 1 ==> genitor.left == old(genitor.left)
    {
      path := found;
      var i := 1;
      heap.HandlesLive();
      while i < upTo
        invariant 1 <= i <= upTo
        invariant heap.ValidBut(this) && heap.nodes >= old(heap.nodes) && fresh(heap.nodes - old(heap.nodes)) && OthersKeepRoots()
        invariant Searches(path, dirs, k, hit) && Owned(path, dirs, i) && Mirrors(path, found)
        invariant path[i..] == found[i..]
        invariant upTo == 1 ==> genitor.left == old(genitor.left)
      {
        assert path[i] == path[i..][0] && found[i] == found[i..][0];
        ghost var before := path;
        path := OwnStep(path, dirs, k, hit, i);
        MirrorsStep(before, i, path[i], found);
        assert path[i + 1..] == before[i..][1..] == found[i..][1..];
        i := i + 1;
      }
    }

    // ---------------------------------------------------------------- rebuilding along an owned path

    /** The state before the change: the path is this trie's own from the genitor down. */
    ghost predicate Prepared(s: Site)
      reads this`genitor, heap, heap.nodes, heap.tries, s.path
    {
      && |s.path| == |s.dirs| + 1 && (forall i {:trigger s.path[i]} | 0 <= i < |s.path| :: s.path[i] in heap.nodes)
      && heap.AllWellMade() && heap.Counted({}, s.orphan) && Owned(s.path, s.dirs, |s.path|)
      && s.path[0] == genitor && genitor.kind.Genitor?
      && (forall i {:trigger s.path[i]} | 1 <= i < |s.path| :: s.path[i].kind.BranchNode? && s.path[i].model.Branch?)
      && (forall i {:trigger Linked(s.path, s.dirs, i)} | 0 <= i < |s.dirs| :: Linked(s.path, s.dirs, i))
      && (forall i {:trigger Apart(s.path, i)} | 0 <= i < |s.path| :: Apart(s.path, i))
      && (s.target != null ==> s.target in heap.nodes && s.target.Inner() && s.target.model.Valid() && s.target !in s.path)
      && (s.orphan != null ==> s.orphan == s.target)
      && (s.target == null ==> |s.path| == 1)
      && (|s.path| == 1 ==> s.left) && (s.dirs != [] ==> s.dirs[0])
    }

    /** Only its predecessor points at a node of the path. */
    lemma OwnedPointers(s: Site, n: Node, d: bool, i: nat)
      requires Prepared(s) && n in heap.nodes && 1 <= i < |s.path| && n.Child(d) == s.path[i]
      ensures n == s.path[i - 1] && d == s.dirs[i - 1]
    {
      assert heap.Claimed(n, d, {}) && Held(s.path, s.dirs, i);
    }

    /** The only difference from the old state: the last node of the path points at the target, and the
        nodes of the path describe what is now below them. Their stored hashes are out of date. */
    twostate predicate Rebuilt(s: Site)
      requires old(Prepared(s))
      reads heap, heap.nodes, s.path, s.target
    {
      var path, dirs, last := s.path, s.dirs, |s.dirs|;
      && heap.Repointed(path[last], s.left, s.target)
      && (forall n {:trigger n.hash} | n in heap.nodes :: n.hash == old(n.hash))
      && (forall n {:trigger n.model} {:trigger n.hashed} | n in heap.nodes && n !in path[1..] ::
            n.model == old(n.model) && n.hashed == old(n.hashed))
      && (forall i {:trigger path[i]} | 1 <= i < |path| :: !path[i].hashed && path[i].model.Valid())
      && (forall i {:trigger Regrown(s, i)} | 1 <= i < |path| :: path[i].model == Regrown(s, i))
    }

    /** What a node of the path stands for once the node below it has changed. */
    twostate function Regrown(s: Site, i: nat): Trie
      requires 1 <= i < |s.path| == |s.dirs| + 1 && old(s.path[i].model.Branch?) && s.target != null
      reads s.path, s.target
    {
      var b := if i < |s.dirs| then s.dirs[i] else s.left;
      var t := if i < |s.dirs| then s.path[i + 1].model else s.target.model;
      var was := old(s.path[i].model);
      if b then was.(left := t) else was.(right := t)
    }

    /** No node of the path below the genitor is a child of n. */
    ghost predicate Avoids(s: Site, n: Node)
      reads n`left, n`right
    {
      forall i {:trigger s.path[i]} | 1 <= i < |s.path| :: s.path[i] !in heap.Children(n)
    }

    /** A node that is not on the path has no child on it, and stays well made. */
    twostate lemma RebuiltElsewhere(s: Site, new n: Node)
      requires old(Prepared(s)) && Rebuilt(s) && n in heap.nodes && n !in s.path
      requires old(Avoids(s, n))
      ensures heap.WellMade(n)
    {
      assert s.path[|s.dirs|] in s.path;
      assert old(heap.WellMade(n));
      assert forall c | c in s.path[1..] :: c !in heap.Children(n);
      heap.UntouchedStaysWellMade(n);
    }

    /** A rebuilt branch is well made when its other child is untouched. */
    twostate lemma RegrownStaysWellMade(new n: Node, new b: bool)
      requires n in old(heap.nodes) && heap.nodes == old(heap.nodes) && n.kind.BranchNode? && old(heap.WellMade(n))
      requires n.Child(!b) == old(n.Child(!b)) && n.Child(!b) in heap.nodes && n.Child(!b).model == old(n.Child(!b).model)
      requires n.Child(b) != null && n.Child(b) in heap.nodes && n.Child(b).Inner()
      requires !n.hashed && n.model.Valid()
      requires n.model == if b then old(n.model).(left := n.left.model) else old(n.model).(right := n.right.model)
      ensures heap.WellMade(n)
    {
    }

    twostate lemma RebuiltOnPath(s: Site, new i: nat)
      requires old(Prepared(s)) && Rebuilt(s) && 1 <= i < |s.path|
      requires forall j {:trigger s.path[j]} | 1 <= j < |s.path| ::
        s.path[j] != old(s.path[i].Child(if i < |s.dirs| then !s.dirs[i] else !s.left))
      ensures heap.WellMade(s.path[i])
    {
      var n, last := s.path[i], |s.dirs|;
      var b := if i < last then s.dirs[i] else s.left;
      assert old(heap.WellMade(n)) && n.model == Regrown(s, i);
      assert Apart(s.path, last) && (i < last ==> old(Linked(s.path, s.dirs, i)));
      assert n.Child(!b) == old(n.Child(!b)) && n.Child(!b) !in s.path[1..];
      assert n.Child(b) == if i < last then s.path[i + 1] else s.target;
      RegrownStaysWellMade(n, b);
    }

    twostate lemma RebuiltGenitor(s: Site)
      requires old(Prepared(s)) && Rebuilt(s)
      ensures heap.WellMade(s.path[0])
    {
      var g := s.path[0];
      assert old(heap.WellMade(g)) && Apart(s.path, |s.dirs|);
      if s.dirs != [] {
        assert old(Linked(s.path, s.dirs, 0));
        assert g.left == s.path[1];
      }
    }

    /** Nothing points from off the path to a node on it, nor across it. */
    ghost predicate Isolated(s: Site)
      reads heap`nodes, heap.nodes`left, heap.nodes`right, s.path`left, s.path`right
    {
      && (forall n {:trigger Avoids(s, n)} | n in heap.nodes && n !in s.path :: Avoids(s, n))
      && (|s.path| == |s.dirs| + 1 ==>
            forall i, j {:trigger s.path[i], s.path[j]} | 1 <= i < |s.path| && 1 <= j < |s.path| ::
              s.path[j] != s.path[i].Child(if i < |s.dirs| then !s.dirs[i] else !s.left))
    }

    lemma PathIsIsolated(s: Site)
      requires Prepared(s)
      ensures Isolated(s)
    {
      forall n, i | n in heap.nodes && n !in s.path && 1 <= i < |s.path|
        ensures s.path[i] !in heap.Children(n)
      {
        if s.path[i] in heap.Children(n) {
          OwnedPointers(s, n, n.left == s.path[i], i);
        }
      }
      forall i, j | 1 <= i < |s.path| && 1 <= j < |s.path|
        ensures s.path[j] != s.path[i].Child(if i < |s.dirs| then !s.dirs[i] else !s.left)
      {
        var d := if i < |s.dirs| then !s.dirs[i] else !s.left;
        assert Apart(s.path, i);
        if s.path[i].Child(d) == s.path[j] {
          OwnedPointers(s, s.path[i], d, j);
        }
      }
    }

    twostate lemma RebuiltWellMade(s: Site)
      requires old(Prepared(s)) && Rebuilt(s)
      requires old(Isolated(s))
      ensures heap.AllWellMade()
    {
      forall n | n in heap.nodes
        ensures heap.WellMade(n)
      {
        if n !in s.path {
          assert old(Avoids(s, n));
          RebuiltElsewhere(s, n);
        } else {
          var i :| 0 <= i < |s.path| && s.path[i] == n;
          if i == 0 {
            RebuiltGenitor(s);
          } else {
            RebuiltOnPath(s, i);
          }
        }
      }
    }

    /** A node of the path with the child below it exchanged. */
    ghost function Exchanged(s: Site, models: seq<Trie>, i: nat): Trie
      requires 1 <= i < |s.path| == |s.dirs| + 1 == |models| && s.path[i].model.Branch? && s.target != null
      reads s.path`model, Heap.Only(s.target)`model
    {
      var b := if i < |s.dirs| then s.dirs[i] else s.left;
      var t := if i < |s.dirs| then models[i + 1] else s.target.model;
      if b then s.path[i].model.(left := t) else s.path[i].model.(right := t)
    }

    /** Models for every node of the path that agree with each other and with the new target. */
    ghost predicate Fits(s: Site, models: seq<Trie>)
      reads s.path`model, Heap.Only(s.target)`model
    {
      && |models| == |s.path| == |s.dirs| + 1
      && (forall i {:trigger models[i]} | 1 <= i < |s.path| :: models[i].Valid())
      && (|s.path| > 1 ==> s.target != null)
      && (forall i {:trigger s.path[i]} | 1 <= i < |s.path| :: s.path[i].model.Branch?)
      && forall i {:trigger Exchanged(s, models, i)} | 1 <= i < |s.path| :: models[i] == Exchanged(s, models, i)
    }

    /** The models along the path are those computed beforehand. */
    twostate lemma DescribedAnew(s: Site, new models: seq<Trie>)
      requires old(Prepared(s)) && heap.nodes == old(heap.nodes) && |models| == |s.path|
      requires heap.Repointed(s.path[|s.dirs|], s.left, s.target)
      requires forall n {:trigger n.hash} | n in heap.nodes :: n.hash == old(n.hash)
      requires forall n {:trigger n.model} {:trigger n.hashed} | n in heap.nodes && n !in s.path[1..] ::
        n.model == old(n.model) && n.hashed == old(n.hashed)
      requires forall i {:trigger s.path[i]} {:trigger models[i]} | 1 <= i < |s.path| :: s.path[i].model == models[i] && !s.path[i].hashed
      requires old(Fits(s, models))
      ensures Rebuilt(s)
    {
      forall i | 1 <= i < |s.path|
        ensures s.path[i].model == Regrown(s, i) && s.path[i].model.Valid()
      {
        assert models[i] == old(Exchanged(s, models, i));
      }
    }

    ghost method Describe(s: Site, models: seq<Trie>)
      requires |models| == |s.path| >= 1
      requires forall i {:trigger Apart(s.path, i)} | 0 <= i < |s.path| :: Apart(s.path, i)
      modifies s.path[1..]`model, s.path[1..]`hashed
      ensures forall i {:trigger s.path[i]} {:trigger models[i]} | 1 <= i < |s.path| :: s.path[i].model == models[i] && !s.path[i].hashed
    {
      for i := 1 to |s.path|
        invariant forall j {:trigger s.path[j]} {:trigger models[j]} | 1 <= j < i :: s.path[j].model == models[j] && !s.path[j].hashed
      {
        assert s.path[i] == s.path[1..][i - 1] && Apart(s.path, i);
        s.path[i].model := models[i];
        s.path[i].hashed := false;
      }
    }

    /** Point the end of an owned path at its new target, and describe the path anew. */
    method RepointAndDescribe(p: Node, b: bool, x: Node?, ghost s: Site, ghost models: seq<Trie>)
      requires Prepared(s) && s.path[|s.dirs|] == p && s.left == b && s.target == x && p.Child(b) != x
      requires Fits(s, models)
      modifies p`left, p`right, Heap.Only(x)`refCount, Heap.Only(x)`holders, s.path[1..]`model, s.path[1..]`hashed
      ensures heap.Repointed(p, b, x)
      ensures forall i {:trigger s.path[i]} {:trigger models[i]} | 1 <= i < |s.path| :: s.path[i].model == models[i] && !s.path[i].hashed
      ensures heap.Counted(heap.Owed(p, b, old(p.Child(b))), null)
      ensures var c := old(p.Child(b)); c != null ==> c in heap.nodes && Field(p, b) in c.holders && !heap.Holds(Field(p, b), c)
    {
      heap.Repoint(p, b, x, s.orphan);
      Describe(s, models);
    }

    /** Assign to a child field at the end of an owned path; the old target is still to be discounted. */
    method Redirect(p: Node, b: bool, x: Node?, ghost s: Site, ghost models: seq<Trie>)
      requires Prepared(s) && s.path[|s.dirs|] == p && s.left == b && s.target == x && p.Child(b) != x
      requires Fits(s, models)
      modifies p`left, p`right, Heap.Only(x)`refCount, Heap.Only(x)`holders, s.path[1..]`model, s.path[1..]`hashed
      ensures Rebuilt(s) && heap.AllWellMade()
      ensures forall i {:trigger s.path[i]} {:trigger models[i]} | 1 <= i < |s.path| :: s.path[i].model == models[i] && !s.path[i].hashed
      ensures heap.Counted(heap.Owed(p, b, old(p.Child(b))), null)
      ensures var c := old(p.Child(b)); c != null ==> c in heap.nodes && Field(p, b) in c.holders && !heap.Holds(Field(p, b), c)
    {
      PathIsIsolated(s);
      RepointAndDescribe(p, b, x, s, models);
      DescribedAnew(s, models);
      RebuiltWellMade(s);
    }

    // ---------------------------------------------------------------- incremental hashing

    /** A path whose nodes have stale hashes, while everything beside and below the path is hashed. */
    ghost predicate Stale(path: seq<Node>, dirs: Path)
      reads this`genitor, heap`nodes, path`left, path`right, path`holders, path`hashed, heap.nodes`hashed
    {
      && |path| == |dirs| + 1 && path[0] == genitor && genitor.kind.Genitor? && genitor in heap.nodes
      && (forall i {:trigger path[i]} | 1 <= i < |path| :: path[i] in heap.nodes && path[i].kind.BranchNode? && !path[i].hashed)
      && (forall i {:trigger Held(path, dirs, i)} | 1 <= i < |path| :: Held(path, dirs, i) && Beside(path[i], After(path, i)))
      && forall i {:trigger Apart(path, i)} | 0 <= i < |path| :: Apart(path, i)
    }

    /** The next node of a path, if there is one. */
    static ghost function After(path: seq<Node>, i: nat): set<Node> {
      if i + 1 < |path| then {path[i + 1]} else {}
    }

    /** Both children exist and are hashed, except perhaps one that is about to be. */
    ghost predicate Beside(n: Node, next: set<Node>)
      reads heap`nodes, n`left, n`right, heap.nodes`hashed
    {
      && n.left != null && n.right != null && n.left in heap.nodes && n.right in heap.nodes
      && (n.left.hashed || n.left in next) && (n.right.hashed || n.right in next)
    }

    /** Bring one node's hash up to date. Its only holder is not hashed, so nobody notices. */
    method RehashOne(n: Node, ghost holder: Node, ghost b: bool)
      requires heap.AllWellMade() && heap.Counted({}, null) && n in heap.nodes && n.kind.BranchNode?
      requires n.holders == {Field(holder, b)} && (holder.kind.Genitor? || !holder.hashed)
      requires Beside(n, {})
      modifies n`hash, n`hashed
      ensures heap.AllWellMade() && n.hashed
    {
      assert heap.WellMade(n);
      heap.ChildrenDiffer(n);
      n.Rehash(heap.h);
      n.hashed := true;
      forall m | m in heap.nodes
        ensures heap.WellMade(m)
      {
        assert heap.Claimed(m, true, {}) && heap.Claimed(m, false, {});
        heap.HashedStillWellMade(n, m);
      }
    }

    /** The genitor's own hash is written too, but nothing ever reads it. */
    method RehashGenitor()
      requires heap.AllWellMade() && genitor in heap.nodes && genitor.kind.Genitor?
      modifies genitor`hash
      ensures heap.AllWellMade()
    {
      genitor.Rehash(heap.h);
      forall m | m in heap.nodes
        ensures heap.WellMade(m)
      {
        assert old(heap.WellMade(m));
      }
    }

    /** Rehash a stale path from its end up to the genitor. */
    method RehashPath(path: seq<Node>, ghost dirs: Path)
      requires heap.Structure({}) && Stale(path, dirs)
      modifies path`hash, path[1..]`hashed
      ensures heap.Structure({})
      ensures forall i {:trigger path[i]} | 1 <= i < |path| :: path[i].hashed
      ensures forall n {:trigger n.hashed} | n in heap.nodes && old(n.hashed) :: n.hashed
    {
      var i := |path|;
      assert forall j {:trigger path[j]} | 1 <= j < |path| :: path[j] == path[1..][j - 1];
      while i > 1
        invariant 1 <= i <= |path|
        invariant heap.AllWellMade()
        invariant forall j {:trigger path[j]} | 1 <= j < |path| :: path[j].hashed == (i <= j)
        invariant forall n {:trigger n.hashed} | n in heap.nodes && old(n.hashed) :: n.hashed
      {
        i := i - 1;
        assert old(Held(path, dirs, i)) && old(Beside(path[i], After(path, i)));
        assert i < |dirs| ==> path[i + 1].hashed;
        assert Apart(path, i);
        RehashOne(path[i], path[i - 1], dirs[i - 1]);
      }
      RehashGenitor();
    }

    // ---------------------------------------------------------------- insert

    method NewLeaf(e: Elem) returns (leaf: Node)
      requires heap.Structure({})
      modifies heap`nodes
      ensures heap.AllWellMade() && heap.Counted({}, leaf)
      ensures fresh(leaf) && heap.nodes == old(heap.nodes) + {leaf}
      ensures leaf.kind == LeafNode(e) && leaf.model == Leaf(e) && leaf.hashed
    {
      leaf := new Node(LeafNode(e), null, null, NO_HASH, Leaf(e), true);
      heap.Join(leaf, null);
      assert heap.WellMade(leaf);
    }

    /** The constructor of a branch node: it takes the key of its right child. */
    method NewBranch(l: Node, r: Node, depth: nat, ghost orphan: Node) returns (branch: Node)
      requires heap.AllWellMade() && heap.Counted({}, orphan)
      requires l in heap.nodes && r in heap.nodes && l != r && (orphan == l || orphan == r)
      requires l.Inner() && r.Inner() && Branch(l.model, r.model, r.Key(), depth).Valid()
      modifies heap`nodes, l`refCount, l`holders, r`refCount, r`holders
      ensures heap.AllWellMade() && heap.Counted({}, branch)
      ensures fresh(branch) && heap.nodes == old(heap.nodes) + {branch}
      ensures branch.kind == BranchNode(r.Key(), depth) && branch.left == l && branch.right == r
      ensures branch.model == Branch(l.model, r.model, r.Key(), depth) && !branch.hashed && branch.holders == {}
      ensures l.refCount == old(l.refCount) + 1 && r.refCount == old(r.refCount) + 1
      ensures forall n {:trigger n.holders} | n in old(heap.nodes) && n != l && n != r :: n.holders == old(n.holders)
    {
      branch := new Node(BranchNode(r.Key(), depth), l, r, NO_HASH, Branch(l.model, r.model, r.Key(), depth), false);
      heap.Join(branch, orphan);
      assert heap.WellMade(branch);
    }

    /** A new branch over a node that rejects e's key and a new leaf for e. Nobody points at it yet. */
    method BuildBranch(c: Node, e: Elem) returns (branch: Node)
      requires heap.Structure({}) && c in heap.nodes && c.Inner() && c.model.Valid() && !c.model.Accepts(e.key)
      modifies heap`nodes, c`refCount, c`holders
      ensures heap.AllWellMade() && heap.Counted({}, branch)
      ensures fresh(heap.nodes - old(heap.nodes)) && heap.nodes > old(heap.nodes)
      ensures branch in heap.nodes && fresh(branch) && branch.kind.BranchNode? && branch.model == Join(c.model, e)
      ensures branch.holders == {} && branch.left != null && branch.right != null && (branch.left == c || branch.right == c)
      ensures (branch.left.kind.LeafNode? || branch.left == c) && (branch.right.kind.LeafNode? || branch.right == c)
      ensures !branch.hashed && branch.model.Valid() && c.refCount == old(c.refCount) + 1
    {
      assert heap.WellMade(c);
      JoinInserts(c.model, e);
      var cmp := c.Compare(e.key);
      var leaf := NewLeaf(e);
      if cmp > 0 {
        branch := NewBranch(leaf, c, Abs(cmp), leaf);
      } else if cmp < 0 {
        branch := NewBranch(c, leaf, Abs(cmp), leaf);
      } else {
        assert false;
      }
    }

    ghost function Models(path: seq<Node>): (models: seq<Trie>)
      reads path`model
      ensures |models| == |path| && forall i {:trigger models[i]} | 0 <= i < |path| :: models[i] == path[i].model
    {
      if path == [] then [] else [path[0].model] + Models(path[1..])
    }

    /** What insertion makes of each node on a search path. */
    static ghost function Grown(was: seq<Trie>, e: Elem): (models: seq<Trie>)
      ensures |models| == |was|
      ensures forall i {:trigger models[i]} | 0 <= i < |was| && was[i].Accepts(e.key) && FindFrom(was[i], e.key).Missing? ::
        models[i] == InsertFrom(was[i], e)
    {
      seq(|was|, i requires 0 <= i < |was| =>
        if was[i].Accepts(e.key) && FindFrom(was[i], e.key).Missing? then InsertFrom(was[i], e) else was[i])
    }

    /** Insertion below a branch goes into the child that the search steps into. */
    static lemma InsertAlong(t: Trie, e: Elem, b: bool)
      requires t.Valid() && t.Accepts(e.key) && FindFrom(t, e.key).Missing?
      requires FindFrom(t, e.key).path != [] && FindFrom(t, e.key).path[0] == b
      ensures var c := if b then t.left else t.right;
        && c.Accepts(e.key) && FindFrom(c, e.key).Missing?
        && InsertFrom(t, e) == if b then t.(left := InsertFrom(c, e)) else t.(right := InsertFrom(c, e))
    {
    }

    static lemma InsertHere(t: Trie, e: Elem)
      requires t.Accepts(e.key) && FindFrom(t, e.key).Missing? && FindFrom(t, e.key).path == []
      ensures InsertFrom(t, e) == if Abs(Keys.Compare(t.left.Key(), e.key)) < Abs(Keys.Compare(t.right.Key(), e.key))
        then t.(left := Join(t.left, e)) else t.(right := Join(t.right, e))
    {
    }

    lemma GrownIsExchanged(s: Site, e: Elem, models: seq<Trie>, i: nat)
      requires Prepared(s) && Searches(s.path, s.dirs, e.key, false) && models == Grown(Models(s.path), e)
      requires s.target != null && 1 <= i < |s.path|
      requires i == |s.dirs| ==>
        var p := s.path[i].model;
        && s.left == (Abs(Keys.Compare(p.left.Key(), e.key)) < Abs(Keys.Compare(p.right.Key(), e.key)))
        && s.target.model == Join(if s.left then p.left else p.right, e)
      ensures models[i].Valid() && models[i] == Exchanged(s, models, i)
    {
      var n := s.path[i];
      GrownHere(s.path, s.dirs, e, models, i);
      if i < |s.dirs| {
        GrownHere(s.path, s.dirs, e, models, i + 1);
        assert Linked(s.path, s.dirs, i) && s.dirs[i..][0] == s.dirs[i];
        InsertAlong(n.model, e, s.dirs[i]);
      } else {
        assert s.dirs[i..] == [];
        InsertHere(n.model, e);
      }
    }

    /** What insertion makes of one node of a search path. */
    lemma GrownHere(path: seq<Node>, dirs: Path, e: Elem, models: seq<Trie>, i: nat)
      requires Searches(path, dirs, e.key, false) && heap.AllWellMade() && 1 <= i < |path| && path[i].model.Branch?
      requires models == Grown(Models(path), e)
      ensures OnTheWay(path[i], dirs[i..], e.key, false) && heap.WellMade(path[i])
      ensures models[i] == InsertFrom(path[i].model, e) && models[i].Valid()
    {
      assert OnTheWay(path[i], dirs[i..], e.key, false) && heap.WellMade(path[i]);
      InsertFromInserts(path[i].model, e);
    }

    /** An owned search path is prepared for pointing its end elsewhere. */
    lemma SearchIsPrepared(path: seq<Node>, dirs: Path, k: Key, hit: bool, s: Site)
      requires Searches(path, dirs, k, hit) && Owned(path, dirs, |path|)
      requires heap.AllWellMade() && heap.Counted({}, s.orphan)
      requires forall i {:trigger path[i]} | 1 <= i < |path| :: path[i].kind.BranchNode?
      requires s.path == path && s.dirs == dirs && s.target != null
      requires s.target in heap.nodes && s.target.Inner() && s.target.model.Valid() && s.target !in path
      requires (s.orphan != null ==> s.orphan == s.target) && (|path| == 1 ==> s.left)
      ensures Prepared(s)
    {
      forall i | 1 <= i < |path|
        ensures path[i] in heap.nodes && path[i].model.Branch?
      {
        assert OnTheWay(path[i], dirs[i..], k, hit) && heap.WellMade(path[i]);
      }
      forall i | 0 <= i < |path|
        ensures Apart(path, i)
      {
        PathNodesDiffer(path, dirs, k, hit, i);
      }
    }

    /** b is the side of a branch on which a key that neither child accepts is inserted, t the child there. */
    static ghost predicate SideOf(p: Trie, k: Key, b: bool, t: Trie) {
      && p.Branch?
      && b == (Abs(Keys.Compare(p.left.Key(), k)) < Abs(Keys.Compare(p.right.Key(), k)))
      && t == if b then p.left else p.right
    }

    /** The side on which insertion continues below the end of a search path, and the rejecting child there. */
    lemma InsertionSide(path: seq<Node>, dirs: Path, e: Elem, b: bool)
      requires Searches(path, dirs, e.key, false) && heap.AllWellMade() && genitor.left != null
      requires |path| == 1 ==> !genitor.left.model.Accepts(e.key)
      requires var p := path[|path| - 1];
        && (|path| > 1 ==> p.kind.BranchNode?) && p.left != null && p.right != null
        && !p.left.kind.Genitor? && !p.right.kind.Genitor?
        && b == (Abs(p.left.Compare(e.key)) < Abs(p.right.Compare(e.key)))
      ensures var c := path[|path| - 1].Child(b);
        c != null && c in heap.nodes && c.Inner() && c.model.Valid() && !c.model.Accepts(e.key)
      ensures |path| == 1 ==> b
      ensures |path| > 1 ==> SideOf(path[|path| - 1].model, e.key, b, path[|path| - 1].Child(b).model)
    {
      var p := path[|path| - 1];
      if |path| == 1 {
        assert heap.WellMade(p) && heap.WellMade(p.left);
        KeyDistance(p.left.Key(), e.key);
      } else {
        assert OnTheWay(p, dirs[|path| - 1..], e.key, false);
        assert heap.WellMade(p) && heap.WellMade(p.left) && heap.WellMade(p.right);
      }
    }

    /** Nothing on an owned path is the child of the path's end. */
    lemma EndChildIsOffPath(path: seq<Node>, dirs: Path, k: Key, hit: bool, b: bool)
      requires Searches(path, dirs, k, hit) && Owned(path, dirs, |path|) && heap.Structure({})
      requires path[|dirs|].Child(b) != null && path[|dirs|].Child(b).Inner()
      ensures path[|dirs|].Child(b) !in path
    {
      var c, last := path[|dirs|].Child(b), |dirs|;
      if c in path {
        var j :| 0 <= j < |path| && path[j] == c;
        assert heap.Claimed(path[last], b, {});
        if j > 0 {
          assert Held(path, dirs, j);
          PathNodesDiffer(path, dirs, k, hit, last);
        }
      }
    }

    /** A search path survives the arrival of new nodes. */
    twostate lemma SearchSurvives(path: seq<Node>, new dirs: Path, new k: Key, new hit: bool)
      requires old(Searches(path, dirs, k, hit)) && heap.nodes >= old(heap.nodes) && genitor == old(genitor)
      requires forall n {:trigger n.left} {:trigger n.right} {:trigger n.model} | n in old(heap.nodes) ::
        n.left == old(n.left) && n.right == old(n.right) && n.model == old(n.model)
      ensures Searches(path, dirs, k, hit)
    {
      forall i | 1 <= i < |path|
        ensures path[i] in heap.nodes && OnTheWay(path[i], dirs[i..], k, hit)
      {
        assert old(OnTheWay(path[i], dirs[i..], k, hit));
      }
      forall i | 0 <= i < |dirs|
        ensures Linked(path, dirs, i)
      {
        assert old(Linked(path, dirs, i));
      }
    }

    /** Assign to a child field at the end of an owned path, and let go of the old target. */
    method Exchange(p: Node, b: bool, x: Node?, ghost s: Site, ghost models: seq<Trie>)
      requires Prepared(s) && s.path[|s.dirs|] == p && s.left == b && s.target == x && p.Child(b) != x
      requires |models| == |s.path| && p.Child(b) != null
      requires Fits(s, models)
      modifies heap`nodes, p`left, p`right, heap.nodes`refCount, heap.nodes`holders
      modifies s.path[1..]`model, s.path[1..]`hashed
      ensures heap.Structure({}) && heap.nodes <= old(heap.nodes)
      ensures p.Child(b) == x && p.Child(!b) == old(p.Child(!b))
      ensures forall i {:trigger s.path[i]} {:trigger models[i]} | 1 <= i < |s.path| :: s.path[i].model == models[i] && !s.path[i].hashed
      ensures forall n {:trigger n.holders} | n in heap.nodes && n != x :: n.holders <= old(n.holders)
      ensures x != null && x in heap.nodes ==> x.holders <= old(x.holders) + {Field(p, b)}
      ensures old(p.Child(b).refCount) > 1 ==> heap.nodes == old(heap.nodes)
      ensures x != null ==> x.model == old(x.model) && x.hashed == old(x.hashed) && x.left == old(x.left) && x.right == old(x.right)
    {
      var c := p.Child(b);
      Redirect(p, b, x, s, models);
      assert {} + {(Field(p, b), c)} == heap.Owed(p, b, c);
      heap.Unref(c, Field(p, b), {});
    }

    lemma AllGrown(s: Site, e: Elem, models: seq<Trie>, t: Trie)
      requires Prepared(s) && Searches(s.path, s.dirs, e.key, false) && models == Grown(Models(s.path), e)
      requires s.target != null
      requires |s.dirs| > 0 ==> SideOf(s.path[|s.dirs|].model, e.key, s.left, t) && s.target.model == Join(t, e)
      ensures Fits(s, models)
    {
      forall i | 1 <= i < |s.path|
        ensures models[i].Valid() && models[i] == Exchanged(s, models, i)
      {
        GrownIsExchanged(s, e, models, i);
      }
    }

    /** Build the branch that is to replace the child c of the path's end. */
    method Sprout(path: seq<Node>, ghost dirs: Path, e: Elem, ghost b: bool, c: Node) returns (branch: Node)
      requires heap.Structure({}) && Searches(path, dirs, e.key, false) && Owned(path, dirs, |path|)
      requires forall i {:trigger path[i]} | 1 <= i < |path| :: path[i].kind.BranchNode?
      requires c in heap.nodes && c.Inner() && c.model.Valid() && !c.model.Accepts(e.key) && c !in path && (|path| == 1 ==> b)
      modifies heap`nodes, c`refCount, c`holders
      ensures Prepared(Site(path, dirs, b, branch, branch)) && Searches(path, dirs, e.key, false)
      ensures fresh(heap.nodes - old(heap.nodes)) && heap.nodes > old(heap.nodes)
      ensures fresh(branch) && branch.kind.BranchNode? && branch.model == Join(c.model, e) && branch.holders == {} && c.refCount == old(c.refCount) + 1
      ensures branch.left != null && branch.right != null && !branch.hashed
      ensures (branch.left.kind.LeafNode? || branch.left == c) && (branch.right.kind.LeafNode? || branch.right == c)
    {
      branch := BuildBranch(c, e);
      SearchSurvives(path, dirs, e.key, false);
      SearchIsPrepared(path, dirs, e.key, false, Site(path, dirs, b, branch, branch));
    }

    /** Every other trie stands for what it stood for. */
    twostate predicate OthersKept()
      reads heap, heap.tries, heap.nodes
    {
      && heap.tries == old(heap.tries)
      && forall u {:trigger u.Value()} {:trigger u.genitor} | u in heap.tries && u != this ::
           && u.genitor in heap.nodes && u.genitor in old(heap.nodes)
           && (u.genitor.left != null ==> u.genitor.left in heap.nodes) && (old(u.genitor.left) != null ==> old(u.genitor.left) in old(heap.nodes))
           && u.Value() == old(u.Value())
    }

    /** No other trie's root is on the owned part of a path. */
    lemma OthersOffPath(path: seq<Node>, dirs: Path, k: Key, hit: bool, m: nat)
      requires heap.Structure({}) && this in heap.tries
      requires Searches(path, dirs, k, hit) && 1 <= m <= |path| && Owned(path, dirs, m)
      requires forall i {:trigger path[i]} | 1 <= i < m :: path[i].kind.BranchNode?
      ensures forall u {:trigger u.genitor} | u in heap.tries && u != this ::
        u.genitor !in path[..m] && (u.genitor.left != null ==> u.genitor.left in heap.nodes && u.genitor.left !in path[..m])
    {
      heap.HandlesLive();
      forall u | u in heap.tries && u != this && u.genitor.left != null
        ensures u.genitor.left in heap.nodes && u.genitor.left !in path[..m]
      {
        assert heap.WellMade(u.genitor) && heap.Claimed(u.genitor, true, {});
        forall j | 1 <= j < m
          ensures path[j] != u.genitor.left
        {
          assert Held(path, dirs, j);
        }
      }
    }

    /** Changes along a path of this trie's own leave the other tries in order. */
    twostate lemma OthersUntouched(path: seq<Node>)
      requires old(heap.ValidBut(this)) && heap.Structure({}) && heap.tries == old(heap.tries)
      requires forall u {:trigger u.genitor} | u in heap.tries && u != this ::
        && u.root == old(u.root) && u.genitor == old(u.genitor) && u.authenticated == old(u.authenticated)
        && u.genitor in old(heap.nodes) && u.genitor.left == old(u.genitor.left)
        && (u.genitor.left != null ==> u.genitor.left in old(heap.nodes) && u.genitor.left !in path)
      requires forall n {:trigger n.model} {:trigger n.hashed} | n in old(heap.nodes) && n !in path ::
        n.model == old(n.model) && n.hashed == old(n.hashed)
      ensures heap.ValidBut(this) && OthersKept()
    {
      heap.HandlesLive();
      forall u | u in heap.tries && u != this
        ensures heap.TrieOk(u) && u.Value() == old(u.Value())
        ensures u.genitor.left != null ==> u.genitor.left in heap.nodes
      {
        assert old(heap.TrieOk(u)) && heap.Claimed(u.genitor, true, {});
      }
    }

    /** What is needed to hang a new branch in place of the child c of the path's end. */
    ghost predicate Fitted(path: seq<Node>, dirs: Path, e: Elem, p: Node, b: bool, c: Node, branch: Node)
      reads this`genitor, heap, heap.nodes, heap.tries, path, p, c, branch
    {
      var s, models := Site(path, dirs, b, branch, branch), Grown(Models(path), e);
      && Prepared(s) && path[|dirs|] == p && p.Child(b) == c && c != branch && branch != p
      && Fits(s, models)
      && c.refCount > 1 && branch.holders == {} && (|path| == 1 ==> b)
    }

    lemma EndChildIsHeld(path: seq<Node>, dirs: Path, k: Key, b: bool)
      requires heap.Structure({}) && path != [] && Searches(path, dirs, k, false) && Owned(path, dirs, |path|)
      requires path[|dirs|].Child(b) != null && path[|dirs|].Child(b).Inner()
      ensures var c := path[|dirs|].Child(b); c in heap.nodes && c !in path && c.refCount == |c.holders| > 0
    {
      EndChildIsOffPath(path, dirs, k, false, b);
      assert heap.Claimed(path[|dirs|], b, {}) && heap.Tallied(path[|dirs|].Child(b), {}, null);
    }

    method PrepareAttach(path: seq<Node>, ghost dirs: Path, p: Node, e: Elem) returns (branch: Node, b: bool)
      requires heap.Structure({}) && genitor.left != null && path != [] && p == path[|path| - 1]
      requires Searches(path, dirs, e.key, false) && Owned(path, dirs, |path|)
      requires forall i {:trigger path[i]} | 1 <= i < |path| :: path[i].kind.BranchNode?
      requires |path| == 1 ==> !genitor.left.model.Accepts(e.key)
      modifies heap`nodes, heap.nodes`refCount, heap.nodes`holders
      ensures heap.nodes > old(heap.nodes) && fresh(heap.nodes - old(heap.nodes))
      ensures p.Child(b) != null && Fitted(path, dirs, e, p, b, p.Child(b), branch)
      ensures fresh(branch) && branch in heap.nodes && branch.kind.BranchNode? && !branch.hashed && branch.model == Join(p.Child(b).model, e)
      ensures p.Child(b) in old(heap.nodes) && p.Child(b) !in path
      ensures branch.left != null && branch.right != null
      ensures (branch.left.kind.LeafNode? || branch.left == p.Child(b)) && (branch.right.kind.LeafNode? || branch.right == p.Child(b))
      ensures forall i {:trigger path[i]} | 1 <= i < |path| :: path[i].holders == old(path[i].holders)
    {
      assert p in heap.nodes && heap.WellMade(p);
      b := Abs(p.left.Compare(e.key)) < Abs(p.right.Compare(e.key));
      InsertionSide(path, dirs, e, b);
      var c := p.Child(b);
      EndChildIsHeld(path, dirs, e.key, b);
      branch := Sprout(path, dirs, e, b, c);
      AllGrown(Site(path, dirs, b, branch, branch), e, Grown(Models(path), e), c.model);
      assert branch !in path;
    }

    /** Hang the new branch where it was fitted. The child it takes over stays alive, held by the branch. */
    method Fasten(path: seq<Node>, ghost dirs: Path, p: Node, ghost e: Elem, b: bool, ghost c: Node, branch: Node)
      requires Fitted(path, dirs, e, p, b, c, branch)
      modifies heap`nodes, p`left, p`right, heap.nodes`refCount, heap.nodes`holders
      modifies path[1..]`model, path[1..]`hashed
      ensures heap.Structure({}) && heap.nodes == old(heap.nodes)
      ensures p.Child(b) == branch && p.Child(!b) == old(p.Child(!b)) && branch.holders <= {Field(p, b)}
      ensures branch.model == old(branch.model) && branch.hashed == old(branch.hashed)
      ensures branch.left == old(branch.left) && branch.right == old(branch.right)
      ensures forall i {:trigger path[i]} | 1 <= i < |path| :: !path[i].hashed && path[i].holders <= old(path[i].holders)
      ensures |path| > 1 ==> path[1].model == Grown(old(Models(path)), e)[1]
    {
      Exchange(p, b, branch, Site(path, dirs, b, branch, branch), Grown(Models(path), e));
    }

    /** Insert below the end of an owned search path. */
    method Attach(path: seq<Node>, ghost dirs: Path, p: Node, e: Elem) returns (branch: Node, ghost b: bool, ghost c: Node)
      requires heap.Structure({}) && genitor.left != null && path != [] && p == path[|path| - 1]
      requires Searches(path, dirs, e.key, false) && Owned(path, dirs, |path|)
      requires forall i {:trigger path[i]} | 1 <= i < |path| :: path[i].kind.BranchNode?
      requires |path| == 1 ==> !genitor.left.model.Accepts(e.key)
      modifies heap`nodes, p`left, p`right, heap.nodes`refCount, heap.nodes`holders
      modifies path[1..]`model, path[1..]`hashed
      ensures heap.Structure({}) && heap.nodes > old(heap.nodes) && fresh(heap.nodes - old(heap.nodes))
      ensures old(p.Child(b)) == c && p.Child(b) == branch && p.Child(!b) == old(p.Child(!b)) && (|path| == 1 ==> b)
      ensures c in old(heap.nodes) && c !in path && branch in heap.nodes && branch !in old(heap.nodes)
      ensures branch.kind.BranchNode? && !branch.hashed && branch.model == Join(old(c.model), e) && branch.holders <= {Field(p, b)}
      ensures branch.left != null && branch.right != null
      ensures (branch.left.kind.LeafNode? || branch.left == c) && (branch.right.kind.LeafNode? || branch.right == c)
      ensures forall i {:trigger path[i]} | 1 <= i < |path| :: !path[i].hashed && path[i].holders <= old(path[i].holders)
      ensures |path| > 1 ==> path[1].model == Grown(old(Models(path)), e)[1]
    {
      var left;
      branch, left := PrepareAttach(path, dirs, p, e);
      b, c := left, p.Child(left);
      Fasten(path, dirs, p, e, left, c, branch);
    }

    /** Every node of the path below the genitor has an up-to-date hash, and so has the root. */
    ghost predicate AllHashed(path: seq<Node>)
      reads this`genitor, genitor`left, path`hashed, Heap.Only(genitor.left)`hashed
    {
      && (genitor.left != null ==> genitor.left.hashed)
      && forall i {:trigger path[i]} | 1 <= i < |path| :: path[i].hashed
    }

    /** A path that is owned, and whose nodes do not occur twice, is live from the genitor down. */
    lemma PathLives(path: seq<Node>, dirs: Path, i: nat)
      requires heap.Structure({}) && this in heap.tries
      requires |path| == |dirs| + 1 && path[0] == genitor && i < |path|
      requires forall j {:trigger Linked(path, dirs, j)} | 0 <= j < |dirs| :: Linked(path, dirs, j)
      ensures path[i] in heap.nodes
    {
      if i == 0 {
        heap.HandlesLive();
      } else {
        PathLives(path, dirs, i - 1);
        assert Linked(path, dirs, i - 1) && heap.Claimed(path[i - 1], dirs[i - 1], {});
      }
    }

    /** A live node held by nothing but one slot is held by that slot. */
    lemma OnlyHolder(n: Node, s: Slot)
      requires heap.Structure({}) && n in heap.nodes && n.holders <= {s}
      ensures n.holders == {s}
    {
      assert heap.Tallied(n, {}, null);
      var g :| g in n.holders;
    }

    /** Children off the path's own direction are not on the path. */
    ghost predicate Clear(path: seq<Node>, dirs: Path)
      reads path`left, path`right
    {
      forall i, d {:trigger path[i].Child(d)} | 1 <= i < |path| && (i < |dirs| ==> d != dirs[i]) ::
        path[i].Child(d) !in path[1..]
    }

    lemma PathIsClear(path: seq<Node>, dirs: Path, k: Key, hit: bool, m: nat)
      requires Searches(path, dirs, k, hit) && 1 <= m <= |path| && Owned(path, dirs, m) && heap.Structure({})
      ensures Clear(path[..m], dirs[..m - 1])
    {
      var up := path[..m];
      forall i, d | 1 <= i < m && (i < m - 1 ==> d != dirs[..m - 1][i])
        ensures up[i].Child(d) !in up[1..]
      {
        assert heap.Claimed(path[i], d, {});
        PathNodesDiffer(path, dirs, k, hit, i);
        forall j | 1 <= j < m
          ensures up[i].Child(d) != path[j]
        {
          assert Held(path, dirs, j);
        }
      }
    }

    twostate lemma BesideAfter(new n: Node, new d: bool, new next: set<Node>)
      requires n in old(heap.nodes) && n in heap.nodes && n.kind.BranchNode? && old(heap.WellMade(n) && n.hashed) && heap.WellMade(n)
      requires n.Child(d) == old(n.Child(d)) && n.Child(d).hashed == old(n.Child(d).hashed)
      requires n.Child(!d) in next || n.Child(!d).hashed
      ensures Beside(n, next)
    {
    }

    /** The path after the change, with what has come below its end, as far as it is to be rehashed. */
    twostate lemma StaleBesidePath(path: seq<Node>, new dirs: Path, new b: bool, new next: set<Node>, new i: nat)
      requires |path| == |dirs| + 1 && 1 <= i < |path| && path[i].kind.BranchNode?
      requires old(heap.AllWellMade() && Clear(path, dirs) && path[i] in heap.nodes && path[i].hashed)
      requires path[i] in heap.nodes && heap.WellMade(path[i])
      requires forall n {:trigger n.hashed} | n in heap.nodes && n in old(heap.nodes) && n !in path[1..] :: n.hashed == old(n.hashed)
      requires i < |dirs| ==> path[i].left == old(path[i].left) && path[i].right == old(path[i].right) && path[i].Child(dirs[i]) in next
      requires i == |dirs| ==> path[i].Child(!b) == old(path[i].Child(!b)) && (path[i].Child(b) in next || path[i].Child(b).hashed)
      ensures Beside(path[i], next)
    {
      var d := if i < |dirs| then !dirs[i] else !b;
      assert old(heap.WellMade(path[i])) && old(path[i].Child(d)) !in path[1..];
      BesideAfter(path[i], d, next);
    }

    /** What Attach leaves behind, apart from the values. */
    twostate predicate Attached(path: seq<Node>, new dirs: Path, new b: bool, new branch: Node, new c: Node)
      requires |path| == |dirs| + 1
      reads heap, heap.nodes, heap.tries, path, c, branch, branch.left, branch.right, this
    {
      var p := path[|dirs|];
      && heap.nodes >= old(heap.nodes) && branch in heap.nodes && branch !in old(heap.nodes) && genitor == old(genitor)
      && branch.kind.BranchNode? && !branch.hashed && branch.holders <= {Field(p, b)}
      && branch.left != null && branch.right != null
      && (branch.left.kind.LeafNode? || branch.left == c) && (branch.right.kind.LeafNode? || branch.right == c)
      && c in old(heap.nodes) && c == old(p.Child(b)) && p.Child(b) == branch && p.Child(!b) == old(p.Child(!b))
      && (forall n {:trigger n.left} {:trigger n.right} | n in old(heap.nodes) && n != p :: n.left == old(n.left) && n.right == old(n.right))
      && (forall n {:trigger n.hashed} | n in old(heap.nodes) && n !in path[1..] :: n.hashed == old(n.hashed))
      && (forall i {:trigger path[i]} | 1 <= i < |path| :: !path[i].hashed && path[i].holders <= old(path[i].holders))
    }

    /** The branch that insertion made is beside nothing unhashed. */
    twostate lemma BranchBeside(path: seq<Node>, new dirs: Path, new b: bool, new branch: Node, new c: Node)
      requires |path| == |dirs| + 1 && path[0] == genitor && c in old(heap.nodes) && Attached(path, dirs, b, branch, c)
      requires heap.AllWellMade() && c !in path[1..] && old(c.hashed)
      ensures Beside(branch, {})
    {
      assert heap.WellMade(branch);
      assert branch.left.kind.LeafNode? ==> heap.WellMade(branch.left);
      assert branch.right.kind.LeafNode? ==> heap.WellMade(branch.right);
    }

    twostate lemma AttachedHeld(path: seq<Node>, new dirs: Path, new b: bool, new branch: Node, new c: Node, new i: nat)
      requires |path| == |dirs| + 1 && Attached(path, dirs, b, branch, c) && 1 <= i < |path| + 1
      requires old(Owned(path, dirs, |path|)) && heap.Structure({}) && forall j {:trigger path[j]} | 0 <= j < |path| :: path[j] in old(heap.nodes)
      ensures Held(path + [branch], dirs + [b], i)
    {
      if i < |path| {
        assert old(Held(path, dirs, i));
        OnlyHolder(path[i], Field(path[i - 1], dirs[i - 1]));
      } else {
        OnlyHolder(branch, Field(path[|dirs|], b));
      }
    }

    twostate lemma AttachedBeside(path: seq<Node>, new dirs: Path, new b: bool, new branch: Node, new c: Node, new i: nat)
      requires |path| == |dirs| + 1 && Attached(path, dirs, b, branch, c) && 1 <= i < |path| && path[i].kind.BranchNode?
      requires heap.AllWellMade() && old(heap.AllWellMade() && Clear(path, dirs) && path[i] in heap.nodes && path[i].hashed)
      requires i < |dirs| ==> old(Linked(path, dirs, i)) && path[i] != path[|dirs|]
      ensures Beside(path[i], After(path + [branch], i))
    {
      StaleBesidePath(path, dirs, b, After(path + [branch], i), i);
    }

    /** After insertion the path with the new branch is stale, and everything beside it is hashed. */
    twostate lemma AttachedIsStale(path: seq<Node>, new dirs: Path, new b: bool, new branch: Node, new c: Node)
      requires |path| == |dirs| + 1 && path[0] == genitor && genitor.kind.Genitor? && Attached(path, dirs, b, branch, c)
      requires heap.Structure({}) && c !in path[1..] && old(c.hashed)
      requires old(heap.AllWellMade() && Clear(path, dirs) && Owned(path, dirs, |path|))
      requires forall j {:trigger path[j]} | 0 <= j < |path| :: path[j] in old(heap.nodes) && (j > 0 ==> path[j].kind.BranchNode? && old(path[j].hashed))
      requires forall j {:trigger old(Linked(path, dirs, j))} | 0 <= j < |dirs| :: old(Linked(path, dirs, j))
      requires forall j {:trigger Apart(path, j)} | 0 <= j < |path| :: Apart(path, j)
      ensures Stale(path + [branch], dirs + [b])
    {
      var path', dirs' := path + [branch], dirs + [b];
      forall i | 1 <= i < |path'|
        ensures Held(path', dirs', i) && Beside(path'[i], After(path', i))
      {
        AttachedHeld(path, dirs, b, branch, c, i);
        if i < |path| {
          assert Apart(path, i) && (i < |dirs| ==> old(Linked(path, dirs, i)));
          AttachedBeside(path, dirs, b, branch, c, i);
        } else {
          BranchBeside(path, dirs, b, branch, c);
        }
      }
      forall i | 0 <= i < |path'|
        ensures Apart(path', i)
      {
        if i < |path| {
          assert Apart(path, i);
        }
      }
    }

    /** Insert below the end of an owned search path; the other tries do not notice. */
    method AttachAlone(path: seq<Node>, ghost dirs: Path, p: Node, e: Elem) returns (branch: Node, ghost b: bool, ghost c: Node)
      requires heap.ValidBut(this) && this in heap.tries && genitor.left != null && path != [] && p == path[|path| - 1]
      requires Searches(path, dirs, e.key, false) && Owned(path, dirs, |path|)
      requires forall i {:trigger path[i]} | 1 <= i < |path| :: path[i].kind.BranchNode?
      requires |path| == 1 ==> !genitor.left.model.Accepts(e.key)
      modifies heap`nodes, p`left, p`right, heap.nodes`refCount, heap.nodes`holders
      modifies path[1..]`model, path[1..]`hashed
      ensures heap.ValidBut(this) && OthersKept() && fresh(heap.nodes - old(heap.nodes))
      ensures Attached(path, dirs, b, branch, c)
      ensures (|path| == 1 ==> b) && c !in path[1..] && branch.model == Join(old(c.model), e)
      ensures |path| > 1 ==> path[1].model == Grown(old(Models(path)), e)[1]
    {
      OthersOffPath(path, dirs, e.key, false, |path|);
      assert path[..|path|] == path;
      branch, b, c := Attach(path, dirs, p, e);
      OthersUntouched(path);
    }

    /** The new value of the root, read off the root's node. */
    twostate lemma AttachedValue(path: seq<Node>, new dirs: Path, new b: bool, new branch: Node, new c: Node, new e: Elem)
      requires |path| == |dirs| + 1 && path[0] == genitor && genitor == old(genitor) && Attached(path, dirs, b, branch, c)
      requires old(Searches(path, dirs, e.key, false)) && genitor in old(heap.nodes) && old(genitor.left) != null
      requires |path| == 1 ==> b && branch.model == Join(old(c.model), e) && !old(c.model.Accepts(e.key))
      requires |path| > 1 ==> path[1] != path[|dirs|] || |path| == 2
      requires |path| > 1 ==> genitor != path[|dirs|] && path[1].model == Grown(old(Models(path)), e)[1]
      ensures genitor.left == (path + [branch])[1] && (Value(), true) == Tries.Insert(old(Value()), e)
    {
      if |path| > 1 {
        assert old(Linked(path, dirs, 0)) && old(OnTheWay(path[1], dirs[1..], e.key, false));
      }
    }

    /** Insert below the end of an owned search path. */
    method Graft(path: seq<Node>, ghost dirs: Path, e: Elem) returns (branch: Node, ghost b: bool)
      requires heap.ValidBut(this) && this in heap.tries && genitor.left != null
      requires Searches(path, dirs, e.key, false) && Owned(path, dirs, |path|)
      requires forall i {:trigger path[i]} | 1 <= i < |path| :: path[i].kind.BranchNode?
      requires |path| == 1 ==> !genitor.left.model.Accepts(e.key)
      modifies heap`nodes, heap.nodes`left, heap.nodes`right, heap.nodes`refCount, heap.nodes`holders
      modifies path[1..]`model, path[1..]`hashed
      ensures heap.ValidBut(this) && OthersKept() && heap.nodes >= old(heap.nodes) && fresh(heap.nodes - old(heap.nodes))
      ensures genitor.left == (path + [branch])[1] && (Value(), true) == Tries.Insert(old(Value()), e)
      ensures old(AllHashed(path)) ==> Stale(path + [branch], dirs + [b])
    {
      ghost var c, sound := genitor.left, AllHashed(path);
      var p := path[|path| - 1];
      assert sound && |path| > 1 ==> p.left.hashed && p.right.hashed by {
        assert heap.WellMade(p);
      }
      PathIsClear(path, dirs, e.key, false, |path|);
      assert path[..|path|] == path && dirs[..|dirs|] == dirs;
      forall j | 0 <= j < |path|
        ensures Apart(path, j)
      {
        PathNodesDiffer(path, dirs, e.key, false, j);
      }
      assert forall j {:trigger Linked(path, dirs, j)} | 0 <= j < |dirs| :: Linked(path, dirs, j);
      branch, b, c := AttachAlone(path, dirs, p, e);
      AttachedValue(path, dirs, b, branch, c, e);
      if sound {
        AttachedIsStale(path, dirs, b, branch, c);
      }
    }

    /** The first element of an empty trie becomes its root. */
    method Plant(e: Elem)
      requires heap.ValidBut(this) && this in heap.tries && genitor.left == null
      modifies heap`nodes, genitor`left, genitor`right, heap.nodes`refCount, heap.nodes`holders
      ensures heap.ValidBut(this) && OthersKept() && heap.nodes >= old(heap.nodes) && fresh(heap.nodes - old(heap.nodes))
      ensures Value() == Full(Leaf(e)) && genitor.left.hashed
    {
      heap.HandlesLive();
      OthersOffPath([genitor], [], e.key, false, 1);
      assert [genitor][..1] == [genitor];
      var leaf := NewLeaf(e);
      ghost var s := Site([genitor], [], true, leaf, leaf);
      Redirect(genitor, true, leaf, s, [Leaf(e)]);
      OthersUntouched([genitor]);
    }

    /** In an authenticated trie every node on a search path is hashed. */
    lemma PathHashed(path: seq<Node>, dirs: Path, k: Key, hit: bool, i: nat)
      requires Searches(path, dirs, k, hit) && heap.AllWellMade() && 1 <= i < |path|
      requires genitor.left != null && genitor.left.hashed
      ensures path[i].hashed
    {
      assert Linked(path, dirs, i - 1);
      if i > 1 {
        PathHashed(path, dirs, k, hit, i - 1);
        PathBranches(path, dirs, k, hit, i - 1);
        assert heap.WellMade(path[i - 1]);
      }
    }

    lemma SearchHashed(path: seq<Node>, dirs: Path, k: Key, hit: bool)
      requires Searches(path, dirs, k, hit) && heap.AllWellMade()
      requires genitor.left != null && genitor.left.hashed
      ensures AllHashed(path)
    {
      forall i | 1 <= i < |path|
        ensures path[i].hashed
      {
        PathHashed(path, dirs, k, hit, i);
      }
    }

    /** Cloning alone changes no trie's value. */
    twostate lemma CloningKeepsValues()
      requires OthersKeepRoots() && heap.Structure({}) && old(heap.Structure({})) && heap.nodes >= old(heap.nodes)
      requires forall n {:trigger n.model} | n in old(heap.nodes) :: n.model == old(n.model)
      ensures OthersKept()
    {
      forall u | u in heap.tries && u != this
        ensures u.Value() == old(u.Value()) && (u.genitor.left != null ==> u.genitor.left in heap.nodes && u.genitor.left in old(heap.nodes))
      {
        assert old(heap.Claimed(u.genitor, true, {})) && heap.Claimed(u.genitor, true, {});
      }
    }

    /** Make the search path for an update this trie's own. Nobody's value changes. */
    method OwnSearch(found: seq<Node>, ghost dirs: Path, ghost k: Key, ghost hit: bool, upTo: nat) returns (path: seq<Node>)
      requires heap.Valid() && this in heap.tries && root != null
      requires Searches(found, dirs, k, hit) && 1 <= upTo <= |found|
      requires forall i {:trigger found[i]} | 1 <= i < upTo :: found[i].kind.BranchNode?
      modifies heap`nodes, heap.nodes`left, heap.nodes`right, heap.nodes`refCount, heap.nodes`holders
      ensures heap.ValidBut(this) && OthersKept() && heap.nodes >= old(heap.nodes) && fresh(heap.nodes - old(heap.nodes))
      ensures Value() == old(Value()) && genitor.left != null && (authenticated ==> genitor.left.hashed)
      ensures Searches(path, dirs, k, hit) && Owned(path, dirs, upTo)
      ensures forall i {:trigger path[i]} | 1 <= i < |path| :: path[i].kind == found[i].kind && (upTo <= i ==> path[i] == found[i])
    {
      assert heap.TrieOk(this);
      assert dirs != [] ==> Linked(found, dirs, 0);
      path := OwnPath(found, dirs, k, hit, upTo);
      CloningKeepsValues();
      assert dirs != [] ==> Linked(path, dirs, 0);
      forall i | 1 <= i < |path|
        ensures upTo <= i ==> path[i] == found[i]
      {
        assert upTo <= i ==> path[i] == path[upTo..][i - upTo] && found[i] == found[upTo..][i - upTo];
      }
    }

    /** Bring a stale path's hashes up to date. Nobody's value changes. */
    method Refresh(path: seq<Node>, ghost dirs: Path)
      requires heap.ValidBut(this) && this in heap.tries && Stale(path, dirs)
      modifies heap.nodes`hash, heap.nodes`hashed
      ensures heap.ValidBut(this) && OthersKept()
      ensures forall i {:trigger path[i]} | 1 <= i < |path| :: path[i].hashed
      ensures forall n {:trigger n.hashed} | n in heap.nodes && old(n.hashed) :: n.hashed
    {
      heap.HandlesLive();
      RehashPath(path, dirs);
      forall u | u in heap.tries && u != this
        ensures heap.TrieOk(u) && u.Value() == old(u.Value()) && (u.genitor.left != null ==> u.genitor.left in heap.nodes)
      {
        assert old(heap.TrieOk(u)) && heap.Claimed(u.genitor, true, {});
      }
    }

    /** A search that finds nothing passes only branches. */
    lemma MissPassesBranches(found: seq<Node>, dirs: Path, k: Key)
      requires Searches(found, dirs, k, false) && !found[|dirs|].kind.LeafNode? && heap.AllWellMade()
      ensures forall i {:trigger found[i]} | 1 <= i < |found| :: found[i].kind.BranchNode?
    {
      forall i | 1 <= i < |found|
        ensures found[i].kind.BranchNode?
      {
        assert OnTheWay(found[i], dirs[i..], k, false);
        PathBranches(found, dirs, k, false, i);
      }
    }

    /** Insert below the end of an owned search path, and rehash. */
    method GraftHashed(path: seq<Node>, ghost dirs: Path, e: Elem)
      requires heap.ValidBut(this) && this in heap.tries && genitor.left != null && (authenticated ==> genitor.left.hashed)
      requires Searches(path, dirs, e.key, false) && Owned(path, dirs, |path|)
      requires forall i {:trigger path[i]} | 1 <= i < |path| :: path[i].kind.BranchNode?
      requires |path| == 1 ==> !genitor.left.model.Accepts(e.key)
      modifies heap`nodes, heap.nodes
      ensures heap.ValidBut(this) && OthersKept() && heap.nodes >= old(heap.nodes) && fresh(heap.nodes - old(heap.nodes))
      ensures (Value(), true) == Tries.Insert(old(Value()), e)
      ensures authenticated ==> genitor.left.hashed
    {
      if authenticated {
        SearchHashed(path, dirs, e.key, false);
      }
      var branch; ghost var b;
      branch, b := Graft(path, dirs, e);
      ghost var grown, taken := path + [branch], dirs + [b];
      if authenticated {
        Refresh(path + [branch], taken);
        assert genitor.left == grown[1];
      }
    }

    /** Insert an element whose key the search did not find: own the path, graft, and rehash. */
    method InsertAt(found: seq<Node>, ghost dirs: Path, e: Elem)
      requires heap.Valid() && this in heap.tries && root != null && dirs == Find(Value(), e.key).path
      requires Searches(found, dirs, e.key, false) && !found[|dirs|].kind.LeafNode?
      modifies heap`nodes, heap.nodes
      ensures heap.ValidBut(this) && OthersKept() && heap.nodes >= old(heap.nodes) && fresh(heap.nodes - old(heap.nodes))
      ensures (Value(), true) == Tries.Insert(old(Value()), e)
      ensures authenticated ==> genitor.left.hashed
    {
      MissPassesBranches(found, dirs, e.key);
      var path := OwnSearch(found, dirs, e.key, false, |found|);
      GraftHashed(path, dirs, e);
    }

    /** Insert an element, unless its key is taken. */
    method Insert(e: Elem) returns (done: bool)
      requires heap.Valid() && this in heap.tries
      modifies this`root, heap`nodes, heap.nodes
      ensures heap.Valid() && OthersKept() && heap.nodes >= old(heap.nodes) && fresh(heap.nodes - old(heap.nodes))
      ensures (Value(), done) == Tries.Insert(old(Value()), e)
    {
      assert heap.TrieOk(this);
      if root == null {
        heap.HandlesLive();
        Plant(e);
      } else {
        var path := FindPath(e.key);
        if path[|path| - 1].kind.LeafNode? {
          CloningKeepsValues();
          return false;
        }
        InsertAt(path, Find(Value(), e.key).path, e);
      }
      heap.HandlesLive();
      root := genitor.left;
      RootPointerIsRight();
      return true;
    }

    /** With its root pointer refreshed, this trie is in order again. */
    lemma RootPointerIsRight()
      requires heap.ValidBut(this) && this in heap.tries && root == genitor.left
      requires authenticated && genitor.left != null ==> genitor.left.hashed
      ensures heap.Valid()
    {
      heap.HandlesLive();
      assert heap.Claimed(genitor, true, {});
      forall u | u in heap.tries
        ensures heap.TrieOk(u)
      {
      }
    }

    // ---------------------------------------------------------------- remove

    /** What removal makes of each branch on a search path. */
    static ghost function Shrunk(was: seq<Trie>, k: Key): (models: seq<Trie>)
      ensures |models| == |was|
      ensures forall i {:trigger models[i]} | 0 <= i < |was| && was[i].Branch? && was[i].Accepts(k) && FindFrom(was[i], k).Found? ::
        RemoveFrom(was[i], k) == Full(models[i])
    {
      seq(|was|, i requires 0 <= i < |was| =>
        if was[i].Branch? && was[i].Accepts(k) && FindFrom(was[i], k).Found? then RemoveFrom(was[i], k).trie else was[i])
    }

    /** The path down to the parent of the branch that is to be shunted out, with its sibling child. */
    static ghost function Shunt(path: seq<Node>, dirs: Path, x: Node): Site
      requires |path| == |dirs| + 1 >= 3
    {
      Site(path[..|path| - 2], dirs[..|dirs| - 2], dirs[|dirs| - 2], x, null)
    }

    /** A child of an owned path's node is not found higher up on the path. */
    lemma ChildIsNotAbove(path: seq<Node>, dirs: Path, k: Key, m: nat, d: bool, j: nat)
      requires Searches(path, dirs, k, true) && heap.Structure({}) && j < m < |path| && Owned(path, dirs, m + 1)
      requires path[m].Child(d) != null && path[m].Child(d).Inner()
      ensures path[j] != path[m].Child(d)
    {
      assert heap.Claimed(path[m], d, {});
      PathNodesDiffer(path, dirs, k, true, m);
      assert j > 0 ==> Held(path, dirs, j);
    }

    /** The removed leaf's sibling is nowhere on the path above. */
    lemma SiblingIsOffPath(path: seq<Node>, dirs: Path, k: Key, x: Node)
      requires Searches(path, dirs, k, true) && heap.Structure({}) && |path| >= 3 && Owned(path, dirs, |path| - 1)
      requires path[|path| - 2].kind.BranchNode? && x == path[|path| - 2].Child(!dirs[|dirs| - 1])
      ensures x in heap.nodes && x.Inner() && x.model.Valid() && x !in path[..|path| - 2]
    {
      var m, d := |path| - 2, !dirs[|dirs| - 1];
      assert heap.WellMade(path[m]) && heap.WellMade(x);
      forall j | 0 <= j < m
        ensures path[j] != x
      {
        ChildIsNotAbove(path, dirs, k, m, d, j);
      }
    }

    lemma ShuntIsPrepared(path: seq<Node>, dirs: Path, k: Key, x: Node)
      requires Searches(path, dirs, k, true) && heap.Structure({}) && |path| >= 3 && Owned(path, dirs, |path| - 1)
      requires forall i {:trigger path[i]} | 1 <= i < |path| - 1 :: path[i].kind.BranchNode?
      requires x == path[|path| - 2].Child(!dirs[|dirs| - 1])
      ensures Prepared(Shunt(path, dirs, x))
    {
      var s := Shunt(path, dirs, x);
      SiblingIsOffPath(path, dirs, k, x);
      forall i | 1 <= i < |s.path|
        ensures s.path[i].model.Branch? && Held(s.path, s.dirs, i)
      {
        PathBranches(path, dirs, k, true, i);
        assert Held(path, dirs, i);
      }
      forall i | 0 <= i < |s.dirs|
        ensures Linked(s.path, s.dirs, i)
      {
        assert Linked(path, dirs, i);
      }
      forall i | 0 <= i < |s.path|
        ensures Apart(s.path, i)
      {
        PathNodesDiffer(path, dirs, k, true, i);
      }
    }

    /** Removing below a branch, told by the first step of the search. */
    static lemma RemoveAlong(t: Trie, k: Key, d: bool, child: Trie)
      requires t.Branch? && t.Accepts(k) && FindFrom(t, k).Found? && FindFrom(t, k).path[0] == d
      requires child == if d then t.left else t.right
      ensures child.Accepts(k) && FindFrom(child, k).Found?
      ensures RemoveFrom(child, k).Full? ==>
        RemoveFrom(t, k) == Full(if d then t.(left := RemoveFrom(child, k).trie) else t.(right := RemoveFrom(child, k).trie))
    {
    }

    /** Removing below a branch that is not about to be shunted out changes one of its children. */
    lemma {:induction false} ShrunkIsExchanged(path: seq<Node>, dirs: Path, k: Key, s: Site, models: seq<Trie>, i: nat)
      requires Searches(path, dirs, k, true) && heap.AllWellMade() && |path| >= 3
      requires 1 <= i < |path| - 2 && path[i].kind.BranchNode? && path[i + 1].kind.BranchNode?
      requires |s.path| == |path| - 2 == |s.dirs| + 1 == |models|
      requires s.path[i] == path[i] && (i < |s.dirs| ==> s.path[i + 1] == path[i + 1]) && s.target != null
      requires dirs[i] == if i < |s.dirs| then s.dirs[i] else s.left
      requires models == Shrunk(Models(s.path), k) && path[i].model.Branch?
      requires i + 1 == |s.path| ==>
        var t := path[i + 1].model;
        t.Accepts(k) && FindFrom(t, k).Found? && RemoveFrom(t, k) == Full(s.target.model)
      ensures models[i].Valid() && models[i] == Exchanged(s, models, i)
    {
      var n, next := path[i], path[i + 1];
      assert OnTheWay(n, dirs[i..], k, true) && heap.WellMade(n);
      assert OnTheWay(next, dirs[i + 1..], k, true) && heap.WellMade(next) && Linked(path, dirs, i);
      assert dirs[i..][0] == dirs[i];
      RemoveAlong(n.model, k, dirs[i], next.model);
      RemoveFromRemoves(n.model, k);
      assert RemoveFrom(n.model, k) == Full(models[i]);
      if i + 1 < |s.path| {
        assert RemoveFrom(next.model, k) == Full(models[i + 1]);
      }
    }

    /** Removing the leaf below the last branch of the path leaves the leaf's sibling. */
    lemma ShuntedOut(path: seq<Node>, dirs: Path, k: Key, x: Node)
      requires Searches(path, dirs, k, true) && heap.AllWellMade() && |path| >= 3
      requires path[|path| - 2].kind.BranchNode? && path[|path| - 1].kind.LeafNode?
      requires x == path[|path| - 2].Child(!dirs[|dirs| - 1])
      ensures var t := path[|path| - 2].model;
        t.Accepts(k) && FindFrom(t, k).Found? && RemoveFrom(t, k) == Full(x.model)
    {
      var m := |path| - 2;
      assert OnTheWay(path[m], dirs[m..], k, true) && heap.WellMade(path[m]);
      assert OnTheWay(path[m + 1], dirs[m + 1..], k, true) && heap.WellMade(path[m + 1]) && Linked(path, dirs, m);
      assert dirs[m..][0] == dirs[m];
    }

    lemma ShuntFitsAt(path: seq<Node>, dirs: Path, k: Key, s: Site, models: seq<Trie>, i: nat)
      requires Searches(path, dirs, k, true) && heap.AllWellMade() && |path| >= 3
      requires forall j {:trigger path[j]} | 1 <= j < |path| - 1 :: path[j].kind.BranchNode?
      requires path[|path| - 1].kind.LeafNode? && s.target != null && s.target == path[|path| - 2].Child(!dirs[|dirs| - 1])
      requires s == Shunt(path, dirs, s.target) && models == Shrunk(Models(s.path), k) && 1 <= i < |s.path|
      ensures s.path[i].model.Branch? && models[i].Valid() && models[i] == Exchanged(s, models, i)
    {
      assert path[i].kind.BranchNode? && path[i + 1].kind.BranchNode? && heap.WellMade(path[i]);
      if i + 1 == |s.path| {
        ShuntedOut(path, dirs, k, s.target);
      }
      ShrunkIsExchanged(path, dirs, k, s, models, i);
    }

    lemma ShuntFits(path: seq<Node>, dirs: Path, k: Key, s: Site)
      requires Searches(path, dirs, k, true) && heap.AllWellMade() && |path| >= 3 && Prepared(s)
      requires forall j {:trigger path[j]} | 1 <= j < |path| - 1 :: path[j].kind.BranchNode?
      requires path[|path| - 1].kind.LeafNode? && s.target != null && s.target == path[|path| - 2].Child(!dirs[|dirs| - 1])
      requires s == Shunt(path, dirs, s.target)
      ensures Fits(s, Shrunk(Models(s.path), k))
    {
      var models := Shrunk(Models(s.path), k);
      forall i | 1 <= i < |s.path|
        ensures models[i].Valid() && models[i] == Exchanged(s, models, i)
      {
        ShuntFitsAt(path, dirs, k, s, models, i);
      }
    }

    /** A step of a search path tells the two children apart. */
    lemma StepIsOneSided(path: seq<Node>, dirs: Path, k: Key, i: nat)
      requires heap.Structure({}) && Searches(path, dirs, k, true) && i < |dirs|
      ensures path[i].Child(dirs[i]) == path[i + 1] != path[i].Child(!dirs[i])
      ensures path[i].kind.BranchNode? ==> path[i].Child(!dirs[i]) != null && path[i].Child(!dirs[i]) in heap.nodes
    {
      assert Linked(path, dirs, i) && heap.WellMade(path[i]);
      heap.ChildrenDiffer(path[i]);
    }

    /** The removed leaf's sibling, and the side of the parent on which their branch hangs. */
    method PickSibling(parent: Node, shunt: Node, leaf: Node, ghost up: bool, ghost down: bool) returns (child: Node, left: bool)
      requires parent.Child(up) == shunt != parent.Child(!up)
      requires shunt.Child(down) == leaf != shunt.Child(!down) && shunt.Child(!down) != null
      ensures left == up && child == shunt.Child(!down) && parent.Child(left) == shunt
    {
      child := if shunt.left == leaf then shunt.right else shunt.left;
      left := parent.left == shunt;
    }

    lemma ReadyToShunt(path: seq<Node>, dirs: Path, k: Key, x: Node)
      requires heap.Structure({}) && |path| >= 3
      requires Searches(path, dirs, k, true) && Owned(path, dirs, |path| - 1)
      requires forall i {:trigger path[i]} | 1 <= i < |path| - 1 :: path[i].kind.BranchNode?
      requires path[|path| - 1].kind.LeafNode? && x == path[|path| - 2].Child(!dirs[|dirs| - 1])
      ensures var s := Shunt(path, dirs, x); Prepared(s) && Fits(s, Shrunk(Models(s.path), k))
      ensures var p := path[|path| - 3]; p.Child(dirs[|dirs| - 2]) != null && p.Child(dirs[|dirs| - 2]) != x
    {
      ShuntIsPrepared(path, dirs, k, x);
      ShuntFits(path, dirs, k, Shunt(path, dirs, x));
      StepIsOneSided(path, dirs, k, |path| - 3);
      heap.ChildrenDiffer(path[|path| - 2]);
    }

    /** Let the sibling of a leaf take the place of the branch they hang on. */
    method ShuntOut(path: seq<Node>, ghost dirs: Path, ghost k: Key, parent: Node, left: bool, child: Node)
      requires heap.Structure({}) && |path| >= 3 && parent == path[|path| - 3]
      requires Searches(path, dirs, k, true) && Owned(path, dirs, |path| - 1)
      requires forall i {:trigger path[i]} | 1 <= i < |path| - 1 :: path[i].kind.BranchNode?
      requires path[|path| - 1].kind.LeafNode?
      requires left == dirs[|path| - 3] && child == path[|path| - 2].Child(!dirs[|path| - 2])
      modifies heap`nodes, parent`left, parent`right, heap.nodes`refCount, heap.nodes`holders
      modifies path[..|path| - 2][1..]`model, path[..|path| - 2][1..]`hashed
      ensures heap.Structure({}) && heap.nodes <= old(heap.nodes) && child in old(heap.nodes)
      ensures parent.Child(left) == child && parent.Child(!left) == old(parent.Child(!left))
      ensures child.hashed == old(child.hashed) && child.model == old(child.model)
      ensures var up := path[..|path| - 2];
        && child !in up && (|up| > 1 ==> up[1].model == Shrunk(old(Models(up)), k)[1])
        && forall i {:trigger up[i]} | 1 <= i < |up| :: !up[i].hashed
      ensures forall n {:trigger n.holders} | n in heap.nodes && n != child :: n.holders <= old(n.holders)
    {
      ReadyToShunt(path, dirs, k, child);
      ghost var s := Shunt(path, dirs, child);
      Exchange(parent, left, child, s, Shrunk(Models(s.path), k));
    }

    lemma LastSteps(path: seq<Node>, dirs: Path, k: Key, n: nat)
      requires heap.Structure({}) && |path| == n + 3 && Searches(path, dirs, k, true) && path[n + 1].kind.BranchNode?
      ensures path[n].Child(dirs[n]) == path[n + 1] != path[n].Child(!dirs[n])
      ensures path[n + 1].Child(dirs[n + 1]) == path[n + 2] != path[n + 1].Child(!dirs[n + 1]) && path[n + 1].Child(!dirs[n + 1]) != null
    {
      StepIsOneSided(path, dirs, k, n + 1);
      StepIsOneSided(path, dirs, k, n);
    }

    /** The side of the parent and the sibling, of the leaf at the end of a search path. */
    method PrepareShunt(path: seq<Node>, ghost dirs: Path, ghost k: Key, parent: Node) returns (child: Node, left: bool)
      requires heap.Structure({}) && |path| >= 3 && parent == path[|path| - 3]
      requires Searches(path, dirs, k, true) && path[|path| - 2].kind.BranchNode?
      ensures left == dirs[|path| - 3] && child == path[|path| - 2].Child(!dirs[|path| - 2])
    {
      LastSteps(path, dirs, k, |path| - 3);
      child, left := PickSibling(parent, path[|path| - 2], path[|path| - 1], dirs[|path| - 3], dirs[|path| - 2]);
    }

    /** Take out the leaf at the end of a search path, and shunt out its parent in favour of its sibling. */
    method Detach(path: seq<Node>, ghost dirs: Path, ghost k: Key, parent: Node) returns (ghost b: bool, ghost x: Node)
      requires heap.Structure({}) && |path| >= 3 && parent == path[|path| - 3]
      requires Searches(path, dirs, k, true) && Owned(path, dirs, |path| - 1)
      requires forall i {:trigger path[i]} | 1 <= i < |path| - 1 :: path[i].kind.BranchNode?
      requires path[|path| - 1].kind.LeafNode?
      modifies heap`nodes, parent`left, parent`right, heap.nodes`refCount, heap.nodes`holders
      modifies path[..|path| - 2][1..]`model, path[..|path| - 2][1..]`hashed
      ensures b == dirs[|path| - 3] && x == old(path[|path| - 2].Child(!dirs[|path| - 2]))
      ensures heap.Structure({}) && heap.nodes <= old(heap.nodes) && x in old(heap.nodes)
      ensures parent.Child(b) == x && parent.Child(!b) == old(parent.Child(!b))
      ensures x.hashed == old(x.hashed) && x.model == old(x.model)
      ensures var up := path[..|path| - 2];
        && x !in up && (|up| > 1 ==> up[1].model == Shrunk(old(Models(up)), k)[1])
        && forall i {:trigger up[i]} | 1 <= i < |up| :: !up[i].hashed
      ensures forall n {:trigger n.holders} | n in heap.nodes && n != x :: n.holders <= old(n.holders)
    {
      var child, left := PrepareShunt(path, dirs, k, parent);
      b, x := left, child;
      ShuntOut(path, dirs, k, parent, left, child);
    }

    /** What Detach leaves behind, apart from the values. */
    twostate predicate Detached(up: seq<Node>, new dirs: Path, new b: bool, new x: Node)
      requires |up| == |dirs| + 1
      reads heap, heap.nodes, up, x, this
    {
      var p := up[|dirs|];
      && heap.nodes <= old(heap.nodes) && genitor == old(genitor) && x in old(heap.nodes) && x !in up
      && p in old(heap.nodes) && p.Child(b) == x && p.Child(!b) == old(p.Child(!b))
      && (forall n {:trigger n.left} {:trigger n.right} | n in heap.nodes && n != p :: n.left == old(n.left) && n.right == old(n.right))
      && (forall i {:trigger up[i]} | 0 <= i < |up| :: up[i] in old(heap.nodes) && (i != |dirs| ==> up[i].left == old(up[i].left) && up[i].right == old(up[i].right)))
      && (forall n {:trigger n.hashed} | n in heap.nodes && n !in up[1..] :: n.hashed == old(n.hashed))
      && (forall n {:trigger n.holders} | n in heap.nodes && n != x :: n.holders <= old(n.holders))
      && (forall i {:trigger up[i]} | 1 <= i < |up| :: !up[i].hashed)
    }

    /** After removal the path down to the parent is stale, and everything beside it is hashed. */
    twostate lemma DetachedIsStale(up: seq<Node>, new dirs: Path, new b: bool, new x: Node)
      requires |up| == |dirs| + 1 && up[0] == genitor && genitor.kind.Genitor? && this in heap.tries && Detached(up, dirs, b, x)
      requires heap.Structure({}) && x.hashed
      requires old(heap.AllWellMade() && Clear(up, dirs) && Owned(up, dirs, |up|))
      requires forall j {:trigger up[j]} | 1 <= j < |up| :: up[j].kind.BranchNode? && old(up[j].hashed)
      requires forall j {:trigger old(Linked(up, dirs, j))} | 0 <= j < |dirs| :: old(Linked(up, dirs, j))
      requires forall j {:trigger Apart(up, j)} | 0 <= j < |up| :: Apart(up, j)
      ensures Stale(up, dirs)
    {
      forall j | 0 <= j < |dirs|
        ensures Linked(up, dirs, j)
      {
        assert old(Linked(up, dirs, j));
      }
      forall i | 0 <= i < |up|
        ensures up[i] in heap.nodes
      {
        PathLives(up, dirs, i);
      }
      forall i | 1 <= i < |up|
        ensures Held(up, dirs, i) && Beside(up[i], After(up, i))
      {
        assert old(Held(up, dirs, i)) && (i < |dirs| ==> Linked(up, dirs, i));
        OnlyHolder(up[i], Field(up[i - 1], dirs[i - 1]));
        StaleBesidePath(up, dirs, b, After(up, i), i);
      }
    }

    /** The path but for its last two nodes. */
    lemma UpperPart(path: seq<Node>, dirs: Path, k: Key, up: seq<Node>)
      requires heap.Structure({}) && |path| >= 3 && Searches(path, dirs, k, true) && up == path[..|path| - 2] && Owned(path, dirs, |path| - 1)
      ensures forall i {:trigger up[i]} | 0 <= i < |up| :: up[i] == path[i] && up[i] in heap.nodes && (i < |up| - 1 ==> up[i] != path[|path| - 3])
    {
      PathNodesDiffer(path, dirs, k, true, |path| - 3);
    }

    /** Take a leaf out, and say what that leaves. */
    method DetachLeaf(path: seq<Node>, ghost dirs: Path, ghost k: Key, parent: Node) returns (ghost b: bool, ghost x: Node)
      requires heap.Structure({}) && |path| >= 3 && parent == path[|path| - 3]
      requires Searches(path, dirs, k, true) && Owned(path, dirs, |path| - 1)
      requires forall i {:trigger path[i]} | 1 <= i < |path| - 1 :: path[i].kind.BranchNode?
      requires path[|path| - 1].kind.LeafNode?
      modifies heap`nodes, parent`left, parent`right, heap.nodes`refCount, heap.nodes`holders
      modifies path[..|path| - 2][1..]`model, path[..|path| - 2][1..]`hashed
      ensures heap.Structure({})
      ensures b == dirs[|path| - 3] && x == old(path[|path| - 2].Child(!dirs[|dirs| - 1]))
      ensures Detached(path[..|path| - 2], dirs[..|dirs| - 2], b, x)
      ensures x.hashed == old(x.hashed) && x.model == old(x.model)
      ensures |path| > 3 ==> path[1].model == Shrunk(old(Models(path[..|path| - 2])), k)[1]
    {
      ghost var up := path[..|path| - 2];
      UpperPart(path, dirs, k, up);
      assert up[|dirs| - 2] == parent;
      b, x := Detach(path, dirs, k, parent);
      assert forall n {:trigger n.left} {:trigger n.right} | n in heap.nodes && n != parent :: n.left == old(n.left) && n.right == old(n.right);
      assert forall i {:trigger up[i]} | 0 <= i < |up| - 1 :: up[i].left == old(up[i].left) && up[i].right == old(up[i].right);
    }

    /** Take a leaf out; the other tries do not notice. */
    method DetachAlone(path: seq<Node>, ghost dirs: Path, ghost k: Key, parent: Node) returns (ghost b: bool, ghost x: Node)
      requires heap.ValidBut(this) && this in heap.tries && |path| >= 3 && parent == path[|path| - 3]
      requires Searches(path, dirs, k, true) && Owned(path, dirs, |path| - 1)
      requires forall i {:trigger path[i]} | 1 <= i < |path| - 1 :: path[i].kind.BranchNode?
      requires path[|path| - 1].kind.LeafNode?
      modifies heap`nodes, parent`left, parent`right, heap.nodes`refCount, heap.nodes`holders
      modifies path[..|path| - 2][1..]`model, path[..|path| - 2][1..]`hashed
      ensures heap.ValidBut(this) && OthersKept()
      ensures b == dirs[|path| - 3] && x == old(path[|path| - 2].Child(!dirs[|dirs| - 1]))
      ensures Detached(path[..|path| - 2], dirs[..|dirs| - 2], b, x)
      ensures x.hashed == old(x.hashed) && x.model == old(x.model)
      ensures |path| > 3 ==> path[1].model == Shrunk(old(Models(path[..|path| - 2])), k)[1]
    {
      OthersOffPath(path, dirs, k, true, |path| - 2);
      b, x := DetachLeaf(path, dirs, k, parent);
      OthersUntouched(path[..|path| - 2]);
    }

    /** The new value of the root after a leaf and its parent have gone. */
    twostate lemma DetachedValue(path: seq<Node>, new dirs: Path, new b: bool, new x: Node, new k: Key)
      requires |path| == |dirs| + 1 >= 3 && path[0] == genitor && b == dirs[|path| - 3]
      requires Detached(path[..|path| - 2], dirs[..|dirs| - 2], b, x) && old(Searches(path, dirs, k, true))
      requires |path| == 3 ==> RemoveFromYields(old(path[1].model), k, x.model)
      requires |path| > 3 ==> genitor != path[|path| - 3] && old(path[1].kind.BranchNode? && path[1].model.Branch?)
      requires |path| > 3 ==> path[1].model == Shrunk(old(Models(path[..|path| - 2])), k)[1]
      ensures (Value(), true) == Tries.Remove(old(Value()), k) && genitor.left == if |path| > 3 then path[1] else x
    {
      assert old(Linked(path, dirs, 0)) && old(OnTheWay(path[1], dirs[1..], k, true));
      assert path[..|path| - 2][0] == genitor;
    }

    static ghost predicate RemoveFromYields(t: Trie, k: Key, u: Trie) {
      t.Accepts(k) && FindFrom(t, k).Found? && RemoveFrom(t, k) == Full(u)
    }

    /** The path down to the parent of the branch that is to go. */
    lemma UpperPath(path: seq<Node>, dirs: Path, k: Key)
      requires Searches(path, dirs, k, true) && heap.Structure({}) && |path| >= 3 && Owned(path, dirs, |path| - 1)
      ensures var up, updirs := path[..|path| - 2], dirs[..|dirs| - 2];
        && Clear(up, updirs) && Owned(up, updirs, |up|)
        && (forall j {:trigger Apart(up, j)} | 0 <= j < |up| :: Apart(up, j))
        && (forall j {:trigger Linked(up, updirs, j)} | 0 <= j < |updirs| :: Linked(up, updirs, j))
    {
      var up, updirs := path[..|path| - 2], dirs[..|dirs| - 2];
      PathIsClear(path, dirs, k, true, |path| - 2);
      forall j | 0 <= j < |up|
        ensures Apart(up, j) && (j > 0 ==> Held(up, updirs, j)) && (j < |updirs| ==> Linked(up, updirs, j))
      {
        PathNodesDiffer(path, dirs, k, true, j);
        assert (j > 0 ==> Held(path, dirs, j)) && Linked(path, dirs, j);
      }
    }

    /** Take a leaf out of a trie of at least two. */
    method Prune(path: seq<Node>, ghost dirs: Path, ghost k: Key)
      requires heap.ValidBut(this) && this in heap.tries && |path| >= 3
      requires Searches(path, dirs, k, true) && Owned(path, dirs, |path| - 1)
      requires forall i {:trigger path[i]} | 1 <= i < |path| - 1 :: path[i].kind.BranchNode?
      requires path[|path| - 1].kind.LeafNode?
      modifies heap`nodes, heap.nodes`left, heap.nodes`right, heap.nodes`refCount, heap.nodes`holders
      modifies path[..|path| - 2][1..]`model, path[..|path| - 2][1..]`hashed
      ensures heap.ValidBut(this) && OthersKept() && heap.nodes <= old(heap.nodes)
      ensures (Value(), true) == Tries.Remove(old(Value()), k)
      ensures old(AllHashed(path)) ==> Stale(path[..|path| - 2], dirs[..|dirs| - 2])
      ensures genitor.left != null && (old(AllHashed(path)) ==> genitor.left.hashed || (|path| > 3 && genitor.left == path[1]))
    {
      ghost var up, updirs, sound := path[..|path| - 2], dirs[..|dirs| - 2], AllHashed(path);
      ghost var child := path[|path| - 2].Child(!dirs[|dirs| - 1]);
      assert child != null && (sound ==> child.hashed) by {
        assert heap.WellMade(path[|path| - 2]);
      }
      ShuntedOut(path, dirs, k, child);
      PathBranches(path, dirs, k, true, 1);
      UpperPath(path, dirs, k);
      ghost var b, x;
      b, x := DetachAlone(path, dirs, k, path[|path| - 3]);
      assert |path| > 3 ==> Apart(up, 0) && up[|path| - 3] != up[0];
      DetachedValue(path, dirs, b, x, k);
      if sound {
        DetachedIsStale(up, updirs, b, x);
      }
    }

    /** Take out the only leaf. */
    method Uproot(ghost k: Key)
      requires heap.ValidBut(this) && this in heap.tries && genitor.left != null
      modifies heap`nodes, genitor`left, genitor`right, heap.nodes`refCount, heap.nodes`holders
      ensures heap.ValidBut(this) && OthersKept() && heap.nodes <= old(heap.nodes)
      ensures Value() == Empty && Stale([genitor], [])
    {
      heap.HandlesLive();
      ghost var s := Site([genitor], [], true, null, null);
      OthersOffPath([genitor], [], k, false, 1);
      assert [genitor][..1] == [genitor];
      Exchange(genitor, true, null, s, [Leaf(Elem(k, 0, [], 0, 0, 0))]);
      heap.HandlesLive();
      OthersUntouched([genitor]);
    }

    /** Take out the leaf at the end of an owned path. What remains of the path is to be rehashed. */
    method Take(path: seq<Node>, ghost dirs: Path, ghost k: Key) returns (up: seq<Node>)
      requires heap.ValidBut(this) && this in heap.tries && |path| >= 2
      requires Searches(path, dirs, k, true) && Owned(path, dirs, |path| - 1) && path[|dirs|].kind.LeafNode?
      requires forall i {:trigger path[i]} | 1 <= i < |path| - 1 :: path[i].kind.BranchNode?
      modifies heap`nodes, heap.nodes`left, heap.nodes`right, heap.nodes`refCount, heap.nodes`holders
      modifies path`model, path`hashed
      ensures heap.ValidBut(this) && OthersKept() && heap.nodes <= old(heap.nodes)
      ensures (Value(), true) == Tries.Remove(old(Value()), k) && 1 <= |up| < |path|
      ensures old(AllHashed(path)) ==> Stale(up, dirs[..|up| - 1])
      ensures old(AllHashed(path)) && genitor.left != null ==> genitor.left.hashed || (|up| > 1 && genitor.left == up[1])
    {
      if |path| < 3 {
        TakeOnly(path, dirs, k);
        up := path[..|path| - 1];
        assert up == [genitor];
      } else {
        Prune(path, dirs, k);
        up := path[..|path| - 2];
      }
    }

    /** Take out the leaf that is all there is. */
    method TakeOnly(path: seq<Node>, ghost dirs: Path, ghost k: Key)
      requires heap.ValidBut(this) && this in heap.tries && |path| == 2
      requires Searches(path, dirs, k, true) && path[1].kind.LeafNode?
      modifies heap`nodes, genitor`left, genitor`right, heap.nodes`refCount, heap.nodes`holders
      ensures heap.ValidBut(this) && OthersKept() && heap.nodes <= old(heap.nodes)
      ensures Value() == Empty && (Value(), true) == Tries.Remove(old(Value()), k) && Stale([genitor], [])
    {
      assert Linked(path, dirs, 0) && OnTheWay(path[1], dirs[1..], k, true) && heap.WellMade(path[1]);
      Uproot(k);
    }

    /** Remove the element a search has found: own the path but for its leaf, prune, and rehash. */
    method RemoveAt(found: seq<Node>, ghost dirs: Path, ghost k: Key)
      requires heap.Valid() && this in heap.tries && root != null && dirs == Find(Value(), k).path
      requires Searches(found, dirs, k, true) && found[|dirs|].kind.LeafNode?
      modifies heap`nodes, heap.nodes
      ensures heap.ValidBut(this) && OthersKept() && fresh(heap.nodes - old(heap.nodes))
      ensures (Value(), true) == Tries.Remove(old(Value()), k)
      ensures authenticated && genitor.left != null ==> genitor.left.hashed
    {
      assert |found| >= 2;
      forall i | 1 <= i < |found| - 1
        ensures found[i].kind.BranchNode?
      {
        assert OnTheWay(found[i], dirs[i..], k, true);
        PathBranches(found, dirs, k, true, i);
      }
      var path := OwnSearch(found, dirs, k, true, |found| - 1);
      if authenticated {
        SearchHashed(path, dirs, k, true);
      }
      path := Take(path, dirs, k);
      if authenticated {
        Refresh(path, dirs[..|path| - 1]);
      }
    }

    /** Remove an element, unless there is none of that key. */
    method Remove(k: Key) returns (done: bool)
      requires heap.Valid() && this in heap.tries
      modifies this`root, heap`nodes, heap.nodes
      ensures heap.Valid() && OthersKept() && fresh(heap.nodes - old(heap.nodes))
      ensures (Value(), done) == Tries.Remove(old(Value()), k)
    {
      assert heap.TrieOk(this);
      var path := FindPath(k);
      if path == [] || !path[|path| - 1].kind.LeafNode? {
        CloningKeepsValues();
        return false;
      }
      RemoveAt(path, Find(Value(), k).path, k);
      heap.HandlesLive();
      root := genitor.left;
      RootPointerIsRight();
      return true;
    }

    // ---------------------------------------------------------------- assigning and destroying

    /** Let go of a genitor this trie no longer points at. */
    method Release(g: Node)
      requires heap.AllWellMade() && heap.Counted({(Handle(this), g)}, null) && g in heap.nodes
      requires Handle(this) in g.holders && (this in heap.tries ==> genitor != g)
      modifies heap`nodes, heap.nodes`refCount, heap.nodes`holders
      ensures heap.Structure({}) && heap.nodes <= old(heap.nodes)
    {
      ghost var none: set<(Slot, Node)> := {};
      assert none + {(Handle(this), g)} == {(Handle(this), g)};
      heap.Unref(g, Handle(this), none);
    }

    /** The handle takes a new genitor; the old one is still to be discounted. */
    method Turn(g: Node)
      requires heap.AllWellMade() && heap.Counted({}, g) && this in heap.tries && g != genitor
      requires g in heap.nodes && g.kind.Genitor? && g.holders == {} && g.refCount == 0
      modifies this`genitor, g`refCount, g`holders
      ensures heap.AllWellMade() && heap.Counted({(Handle(this), old(genitor))}, null) && genitor == g
    {
      ghost var none: set<(Slot, Node)>, after := {}, {(Handle(this), genitor)};
      heap.Ref(g, Handle(this));
      genitor := g;
      TurnTallies(g);
      forall n, b | n in heap.nodes
        ensures heap.Claimed(n, b, after)
      {
        assert old(heap.Claimed(n, b, none));
      }
      forall u | u in heap.tries
        ensures heap.Handled(u, after)
      {
        assert old(heap.Handled(u, none));
      }
    }

    twostate lemma TurnTallies(new g: Node)
      requires heap.nodes == old(heap.nodes) && heap.tries == old(heap.tries) && g in old(heap.nodes) && this in heap.tries
      requires old(g.holders) == {} && g.holders == {Handle(this)} && g.refCount == 1 && genitor == g
      requires forall u {:trigger u.genitor} | u in heap.tries && u != this :: u.genitor == old(u.genitor)
      requires forall n {:trigger n.left} {:trigger n.right} | n in heap.nodes :: n.left == old(n.left) && n.right == old(n.right)
      requires forall n {:trigger n.holders} {:trigger n.refCount} | n in heap.nodes && n != g :: n.holders == old(n.holders) && n.refCount == old(n.refCount)
      requires old(heap.Counted({}, g))
      ensures var after := {(Handle(this), old(genitor))};
        forall n {:trigger heap.Tallied(n, after, null)} | n in heap.nodes :: heap.Tallied(n, after, null)
    {
      ghost var none: set<(Slot, Node)>, after := {}, {(Handle(this), old(genitor))};
      forall n | n in heap.nodes
        ensures heap.Tallied(n, after, null)
      {
        assert old(heap.Tallied(n, none, g));
        forall s | s in n.holders
          ensures (s, n) in after || heap.Holds(s, n)
        {
          assert s in old(n.holders) ==> old(heap.Holds(s, n));
        }
      }
    }

    /** Make this trie a snapshot of another one. What it held before is let go of last. */
    method Assign(rhs: MerkleTrie)
      requires heap.Valid() && this in heap.tries && rhs in heap.tries
      modifies this, heap`nodes, heap.nodes`refCount, heap.nodes`holders
      ensures heap.Valid() && OthersKept() && fresh(heap.nodes - old(heap.nodes))
      ensures Value() == old(rhs.Value()) && authenticated == old(rhs.authenticated)
    {
      assert heap.TrieOk(rhs);
      heap.HandlesLive();
      if rhs == this {
        CloningKeepsValues();
        return;
      }
      assert heap.WellMade(rhs.genitor);
      root := rhs.root;
      var g := heap.NewGenitor(root);
      var before := genitor;
      Turn(g);
      Release(before);
      authenticated := rhs.authenticated;
      AllInOrder();
    }

    /** The other tries are in order because what they point at is alive and unchanged. */
    twostate lemma AllInOrder()
      requires old(heap.Valid()) && heap.Structure({}) && this in heap.tries && heap.tries == old(heap.tries)
      requires root == genitor.left && (authenticated && root != null ==> root.hashed)
      requires forall u {:trigger u.genitor} | u in heap.tries && u != this ::
        && u.root == old(u.root) && u.genitor == old(u.genitor) && u.authenticated == old(u.authenticated)
      requires forall n {:trigger n.left} {:trigger n.model} {:trigger n.hashed} | n in old(heap.nodes) ::
        n.left == old(n.left) && n.model == old(n.model) && n.hashed == old(n.hashed)
      ensures heap.Valid() && OthersKept()
    {
      heap.HandlesLive();
      forall u | u in heap.tries
        ensures heap.TrieOk(u)
        ensures u != this ==> u.genitor in old(heap.nodes) && u.Value() == old(u.Value())
        ensures u.genitor.left != null ==> u.genitor.left in heap.nodes && (u != this ==> u.genitor.left in old(heap.nodes))
      {
        assert old(heap.TrieOk(u)) && heap.Claimed(u.genitor, true, {}) && old(heap.Claimed(u.genitor, true, {}));
      }
    }

    /** The destructor: the handle lets go, and whatever nobody else shares is freed. */
    method Destroy()
      requires heap.Valid() && this in heap.tries
      modifies heap`nodes, heap`tries, heap.nodes`refCount, heap.nodes`holders
      ensures heap.Valid() && heap.tries == old(heap.tries) - {this} && heap.nodes <= old(heap.nodes)
    {
      ghost var none: set<(Slot, Node)>, after := {}, {(Handle(this), genitor)};
      assert heap.Handled(this, none);
      heap.tries := heap.tries - {this};
      forall n | n in heap.nodes
        ensures heap.Tallied(n, after, null)
      {
        assert old(heap.Tallied(n, none, null));
        forall s | s in n.holders
          ensures (s, n) in after || heap.Holds(s, n)
        {
          assert old(heap.Holds(s, n));
        }
      }
      forall n, b | n in heap.nodes
        ensures heap.Claimed(n, b, after)
      {
        assert old(heap.Claimed(n, b, none));
      }
      forall u | u in heap.tries
        ensures heap.Handled(u, after)
      {
        assert old(heap.Handled(u, none));
      }
      Release(genitor);
      heap.HandlesLive();
      forall u | u in heap.tries
        ensures heap.TrieOk(u)
      {
        assert old(heap.TrieOk(u)) && heap.Claimed(u.genitor, true, {});
      }
    }

    // ---------------------------------------------------------------- switching authentication on

    /** Hash a subtrie from the leaves up, shared nodes and all. Where a node was hashed already its
        hash comes out the same. */
    method HashVisit(n: Node)
      requires heap.AllWellMade() && n in heap.nodes && n.Inner()
      modifies heap.nodes`hash, heap.nodes`hashed
      ensures heap.AllWellMade() && n.hashed
      ensures forall m {:trigger m.hashed} {:trigger m.hash} | m in heap.nodes && old(m.hashed) :: m.hashed && m.hash == old(m.hash)
      decreases n.model
    {
      assert heap.WellMade(n);
      if n.kind.BranchNode? {
        HashVisit(n.left);
        HashVisit(n.right);
        label Hashed:
        assert heap.WellMade(n);
        heap.ChildrenDiffer(n);
        assert n.left.hashed && n.right.hashed;
        n.Rehash(heap.h);
        n.hashed := true;
        assert old@Hashed(n.hashed) ==> n.hash == old@Hashed(n.hash);
        forall m | m in heap.nodes
          ensures heap.WellMade(m)
        {
          heap.HashedStillWellMade@Hashed(n, m);
        }
      }
    }

    method Authenticate(a: bool)
      requires heap.Valid() && this in heap.tries
      modifies this`authenticated, heap.nodes`hash, heap.nodes`hashed
      ensures heap.Valid() && OthersKept()
      ensures Value() == old(Value()) && authenticated == a
    {
      assert heap.TrieOk(this);
      heap.HandlesLive();
      if authenticated == a {
        CloningKeepsValues();
        return;
      }
      authenticated := a;
      if authenticated && root != null {
        assert heap.WellMade(genitor);
        HashVisit(root);
      }
      forall u | u in heap.tries
        ensures heap.TrieOk(u)
      {
        assert old(heap.TrieOk(u));
      }
      CloningKeepsValues();
    }

    // ---------------------------------------------------------------- incremental hashing is full hashing

    /** The hash stored in a hashed node is the hash of its subtrie computed from scratch. */
    lemma {:induction false} StoredHashIsFullHash(n: Node)
      requires heap.AllWellMade() && n in heap.nodes && n.Inner() && n.hashed
      ensures n.HashOf(heap.h) == TrieHash(heap.h, n.model)
      decreases n.model
    {
      assert heap.WellMade(n);
      if n.kind.BranchNode? {
        StoredHashIsFullHash(n.left);
        StoredHashIsFullHash(n.right);
      }
    }

    /** The hash an authenticated trie reports. */
    method ReportedHash() returns (hash: Hash)
      requires heap.Valid() && this in heap.tries && authenticated && root != null
      ensures Value().Full? && hash == RootHash(heap.h, Value())
    {
      assert heap.TrieOk(this) && heap.WellMade(genitor);
      StoredHashIsFullHash(root);
      hash := root.HashOf(heap.h);
    }
  }
}

/** The trie as a value: its shape, its search path, and what insertion and removal do to it. */
module Tries {
  import opened Keys
  import opened Octets

  /** A signed 64-bit number. */
  type Amount = v: int | -0x8000_0000_0000_0000 <= v < 0x8000_0000_0000_0000

  /** What a transaction's output is to the world: its Coin, its value and its script. */
  datatype Txo = Txo(key: Key, value: Amount, script: seq<byte>)

  /** An unspent output. Its key is the 288-bit number formed by its Coin; coin, count and cnf are
      notes of its keeper. */
  datatype Elem = Elem(key: Key, value: Amount, script: seq<byte>, coin: int, count: int, cnf: int)
  {
    /** The part that is serialized and hashed. */
    function Output(): Txo {
      Txo(key, value, script)
    }
  }

  /** A branch keeps the key of whatever was its right child when it was built; after removals only
      the bits above its depth still mean anything. */
  datatype Trie =
    | Leaf(elem: Elem)
    | Branch(left: Trie, right: Trie, key: Key, depth: nat)
  {
    function Key(): Key {
      if Leaf? then elem.key else key
    }

    function Depth(): nat {
      if Leaf? then 0 else depth
    }

    /** The test a search makes before it steps into a node. */
    predicate Accepts(k: Key) {
      Abs(Compare(Key(), k)) <= Depth()
    }

    /** The Patricia invariant. The left child carries the larger keys. */
    ghost predicate Valid() {
      Branch? ==>
        && left.Valid() && right.Valid()
        && left.Depth() < depth && right.Depth() < depth
        && left.Key() > right.Key()
        && Top(left.Key(), right.Key()) == depth
        && Top(key, right.Key()) <= depth
    }

    /** What the trie stores. */
    ghost function Contents(): map<Key, Elem> {
      match this
      case Leaf(e) => map[e.key := e]
      case Branch(l, r, _, _) => l.Contents() + r.Contents()
    }
  }

  /** A possibly empty trie: what hangs below a genitor. */
  datatype Root = Empty | Full(trie: Trie) {
    ghost predicate Valid() {
      Full? ==> trie.Valid()
    }

    ghost function Contents(): map<Key, Elem> {
      if Empty? then map[] else trie.Contents()
    }
  }

  /** A place in a trie, as the directions taken from its root; true is left. */
  type Path = seq<bool>

  datatype Search =
    | Found(elem: Elem, path: Path)
    | Missing(path: Path)
  {
    function Prepend(b: bool): Search {
      if Found? then Found(elem, [b] + path) else Missing([b] + path)
    }
  }

  /** The search from a node that has already been stepped into. Missing ends at the branch neither
      of whose children accepts the key. */
  function FindFrom(t: Trie, k: Key): (s: Search)
    requires t.Accepts(k)
    ensures s.Missing? ==> t.Branch?
  {
    if t.Leaf? then Found(t.elem, [])
    else if t.left.Accepts(k) then FindFrom(t.left, k).Prepend(true)
    else if t.right.Accepts(k) then FindFrom(t.right, k).Prepend(false)
    else Missing([])
  }

  /** Replace a node t that does not accept e's key by a branch over t and a leaf for e. */
  function Join(t: Trie, e: Elem): Trie {
    var cmp := Compare(t.Key(), e.key);
    if cmp > 0 then Branch(Leaf(e), t, t.Key(), Abs(cmp))
    else if cmp < 0 then Branch(t, Leaf(e), e.key, Abs(cmp))
    else Leaf(e)
  }

  /** Insert below a branch that accepts the key. */
  function InsertFrom(t: Trie, e: Elem): Trie
    requires t.Accepts(e.key) && FindFrom(t, e.key).Missing?
  {
    if t.left.Accepts(e.key) then t.(left := InsertFrom(t.left, e))
    else if t.right.Accepts(e.key) then t.(right := InsertFrom(t.right, e))
    else if Abs(Compare(t.left.Key(), e.key)) < Abs(Compare(t.right.Key(), e.key)) then
      t.(left := Join(t.left, e))
    else
      t.(right := Join(t.right, e))
  }

  /** The outcome of a search that starts at the genitor. */
  function Find(root: Root, k: Key): Search {
    if root.Full? && root.trie.Accepts(k) then FindFrom(root.trie, k).Prepend(true) else Missing([])
  }

  function Insert(root: Root, e: Elem): (Root, bool) {
    if root.Empty? then (Full(Leaf(e)), true)
    else if Find(root, e.key).Found? then (root, false)
    else if root.trie.Accepts(e.key) then (Full(InsertFrom(root.trie, e)), true)
    else (Full(Join(root.trie, e)), true)
  }

  /** Take a stored key out: its leaf goes, and the leaf's parent is replaced by the leaf's sibling. */
  function RemoveFrom(t: Trie, k: Key): Root
    requires t.Accepts(k) && FindFrom(t, k).Found?
  {
    if t.Leaf? then Empty
    else if t.left.Accepts(k) then
      var l := RemoveFrom(t.left, k);
      Full(if l.Empty? then t.right else t.(left := l.trie))
    else
      var r := RemoveFrom(t.right, k);
      Full(if r.Empty? then t.left else t.(right := r.trie))
  }

  function Remove(root: Root, k: Key): (Root, bool) {
    if Find(root, k).Found? then (RemoveFrom(root.trie, k), true) else (root, false)
  }

  // ------------------------------------------------------------------ the Patricia invariant

  /** Accepting a key is sharing every bit above the depth with it. */
  lemma AcceptsIsNear(t: Trie, k: Key)
    ensures t.Accepts(k) <==> Top(t.Key(), k) <= t.Depth()
    ensures t.Accepts(k) <==> Top(k, t.Key()) <= t.Depth()
  {
    TopSymmetric(t.Key(), k);
  }

  /** In a valid branch every key lies within depth of the right child when it lies within depth of
      the branch's own, possibly stale, key. */
  lemma StaleKeyStillGuides(t: Trie, k: Key)
    requires t.Branch? && t.Valid()
    ensures t.Accepts(k) <==> Top(t.right.Key(), k) <= t.depth
    ensures t.Accepts(k) <==> Top(t.left.Key(), k) <= t.depth
  {
    var l, r := t.left.Key(), t.right.Key();
    TopSymmetric(t.key, r);
    TopSymmetric(l, r);
    TopUltrametric(t.key, r, k);
    TopUltrametric(r, t.key, k);
    TopUltrametric(l, r, k);
    TopUltrametric(r, l, k);
  }

  /** At a valid branch that accepts k, k is strictly within depth of exactly one child. */
  lemma BranchSplits(t: Trie, k: Key)
    requires t.Branch? && t.Valid() && t.Accepts(k)
    ensures Top(t.left.Key(), k) < t.depth <==> Top(t.right.Key(), k) == t.depth
    ensures Top(t.right.Key(), k) < t.depth <==> Top(t.left.Key(), k) == t.depth
    ensures Top(t.left.Key(), k) < t.depth ==> k > t.right.Key()
    ensures Top(t.right.Key(), k) < t.depth ==> k < t.left.Key()
    ensures t.left.Accepts(k) ==> Top(t.left.Key(), k) < t.depth
    ensures t.right.Accepts(k) ==> Top(t.right.Key(), k) < t.depth
    ensures !(t.left.Accepts(k) && t.right.Accepts(k))
    ensures Top(t.left.Key(), k) <= t.depth && Top(t.right.Key(), k) <= t.depth
  {
    StaleKeyStillGuides(t, k);
    TopSplits(t.left.Key(), t.right.Key(), k);
  }

  /** A child that accepts a key sits in a branch that accepts it. */
  lemma ChildAcceptsFirst(t: Trie, k: Key)
    requires t.Branch? && t.Valid()
    requires t.left.Accepts(k) || t.right.Accepts(k)
    ensures t.Accepts(k)
  {
    StaleKeyStillGuides(t, k);
  }

  /** Every stored key is accepted by every node above it, and is stored under its own key. */
  lemma {:induction false} StoredIsAccepted(t: Trie, k: Key)
    requires t.Valid() && k in t.Contents()
    ensures t.Accepts(k) && t.Contents()[k].key == k
  {
    if t.Branch? {
      if k in t.right.Contents() {
        StoredIsAccepted(t.right, k);
      } else {
        StoredIsAccepted(t.left, k);
      }
      ChildAcceptsFirst(t, k);
    }
  }

  /** The two children of a valid branch store different keys. */
  lemma ChildrenAreDisjoint(t: Trie, k: Key)
    requires t.Valid() && t.Branch?
    ensures !(k in t.left.Contents() && k in t.right.Contents())
    ensures k in t.left.Contents() ==> k in t.Contents() && t.Contents()[k] == t.left.Contents()[k] && t.left.Accepts(k)
    ensures k in t.right.Contents() ==> k in t.Contents() && t.Contents()[k] == t.right.Contents()[k] && t.right.Accepts(k)
  {
    if k in t.left.Contents() {
      StoredIsAccepted(t.left, k);
    }
    if k in t.right.Contents() {
      StoredIsAccepted(t.right, k);
    }
    if k in t.left.Contents() && k in t.right.Contents() {
      ChildAcceptsFirst(t, k);
      BranchSplits(t, k);
    }
  }

  // ------------------------------------------------------------------ maps put together from two halves

  lemma PutInHalf<K, V>(a: map<K, V>, b: map<K, V>, k: K, v: V)
    ensures k !in b ==> a[k := v] + b == (a + b)[k := v]
    ensures a + b[k := v] == (a + b)[k := v]
  {
  }

  lemma DropFromHalf<K, V>(a: map<K, V>, b: map<K, V>, k: K)
    ensures k !in b ==> (a - {k}) + b == (a + b) - {k}
    ensures k !in a ==> a + (b - {k}) == (a + b) - {k}
  {
  }

  // ------------------------------------------------------------------ find

  /** Search decides membership. */
  lemma {:induction false} FindFromDecides(t: Trie, k: Key)
    requires t.Valid() && t.Accepts(k)
    ensures FindFrom(t, k).Found? <==> k in t.Contents()
    ensures FindFrom(t, k).Found? ==> FindFrom(t, k).elem == t.Contents()[k]
  {
    if t.Branch? {
      ChildrenAreDisjoint(t, k);
      BranchSplits(t, k);
      if t.left.Accepts(k) {
        FindFromDecides(t.left, k);
      } else if t.right.Accepts(k) {
        FindFromDecides(t.right, k);
      }
    }
  }

  lemma FindDecides(root: Root, k: Key)
    requires root.Valid()
    ensures Find(root, k).Found? <==> k in root.Contents()
    ensures Find(root, k).Found? ==> Find(root, k).elem == root.Contents()[k] && Find(root, k).elem.key == k
  {
    if root.Full? {
      if root.trie.Accepts(k) {
        FindFromDecides(root.trie, k);
      }
      if k in root.Contents() {
        StoredIsAccepted(root.trie, k);
      }
    }
  }

  // ------------------------------------------------------------------ insert

  lemma {:induction false} JoinInserts(t: Trie, e: Elem)
    requires t.Valid() && !t.Accepts(e.key)
    ensures var j := Join(t, e);
      && j.Branch? && j.Valid() && j.Contents() == t.Contents()[e.key := e]
      && j.depth == Top(t.Key(), e.key) && Top(j.Key(), t.Key()) <= j.depth
      && j.Accepts(e.key)
  {
    TopSymmetric(t.Key(), e.key);
    if e.key in t.Contents() {
      StoredIsAccepted(t, e.key);
    }
    assert Leaf(e).Contents() == map[e.key := e];
    assert t.Contents() + map[e.key := e] == t.Contents()[e.key := e];
    assert map[e.key := e] + t.Contents() == t.Contents()[e.key := e];
  }

  /** Where a search stops, the side whose distance is smaller is the side to insert on. */
  lemma {:induction false} InsertFromInserts(t: Trie, e: Elem)
    requires t.Valid() && t.Accepts(e.key) && FindFrom(t, e.key).Missing?
    ensures var u := InsertFrom(t, e);
      && u.Branch? && u.Valid() && u.Contents() == t.Contents()[e.key := e]
      && u.key == t.key && u.depth == t.depth
  {
    var k := e.key;
    var l, r := t.left, t.right;
    BranchSplits(t, k);
    FindFromDecides(t, k);
    ChildrenAreDisjoint(t, k);
    PutInHalf(l.Contents(), r.Contents(), k, e);
    if l.Accepts(k) {
      InsertFromInserts(l, e);
    } else if r.Accepts(k) {
      InsertFromInserts(r, e);
    } else if Top(l.Key(), k) < t.depth {
      JoinInserts(l, e);
      JoinKeepsPlace(t, e, true);
    } else {
      JoinInserts(r, e);
      JoinKeepsPlace(t, e, false);
    }
  }

  /** Joining under a branch leaves that branch's key, depth and ordering in order. */
  lemma JoinKeepsPlace(t: Trie, e: Elem, left: bool)
    requires t.Valid() && t.Branch? && t.Accepts(e.key)
    requires var side := if left then t.left else t.right; !side.Accepts(e.key) && Top(side.Key(), e.key) < t.depth
    ensures left ==> t.(left := Join(t.left, e)).Valid()
    ensures !left ==> t.(right := Join(t.right, e)).Valid()
  {
    var l, r, k := t.left.Key(), t.right.Key(), e.key;
    BranchSplits(t, k);
    StaleKeyStillGuides(t, k);
    TopSymmetric(l, r);
    TopSymmetric(l, k);
    TopSymmetric(r, k);
    TopSymmetric(t.key, k);
    if left {
      JoinInserts(t.left, e);
      var j := Join(t.left, e);
      assert j.Key() == l || j.Key() == k;
    } else {
      JoinInserts(t.right, e);
      var j := Join(t.right, e);
      assert j.Key() == r || j.Key() == k;
      AcceptsIsNear(t, k);
    }
  }

  /** Insertion adds exactly the new element, or refuses and changes nothing when the key is taken. */
  lemma InsertIsMapInsert(root: Root, e: Elem)
    requires root.Valid()
    ensures var (root', done) := Insert(root, e);
      && root'.Valid()
      && done == (e.key !in root.Contents())
      && root'.Contents() == (if done then root.Contents()[e.key := e] else root.Contents())
      && (!done ==> root' == root)
  {
    FindDecides(root, e.key);
    if root.Full? && e.key !in root.Contents() {
      if root.trie.Accepts(e.key) {
        InsertFromInserts(root.trie, e);
      } else {
        JoinInserts(root.trie, e);
      }
    }
  }

  lemma {:induction false} StopDiffers(t: Trie, k: Key)
    requires t.Valid() && t.Accepts(k) && FindFrom(t, k).Missing?
    ensures var s := SubtrieAt(t, FindFrom(t, k).path);
      s.Branch? && Compare(s.left.Key(), k) != 0 && Compare(s.right.Key(), k) != 0
  {
    if t.left.Accepts(k) {
      StopDiffers(t.left, k);
    } else if t.right.Accepts(k) {
      StopDiffers(t.right, k);
    }
  }

  /** Wherever a search for an absent key stops, both neighbours differ from the key: the arms that
      would overwrite a leaf in place are never reached. The genitor's neighbours are the root and the
      end node, which compares to no key as equal. */
  lemma ReplacementArmIsDead(root: Root, k: Key)
    requires root.Full? && root.Valid() && Find(root, k).Missing?
    ensures Find(root, k).path == [] ==> Compare(root.trie.Key(), k) != 0
    ensures Find(root, k).path != [] ==>
      var s := SubtrieAt(root.trie, Find(root, k).path[1..]);
      s.Branch? && Compare(s.left.Key(), k) != 0 && Compare(s.right.Key(), k) != 0
  {
    if root.trie.Accepts(k) {
      StopDiffers(root.trie, k);
      assert Find(root, k).path[1..] == FindFrom(root.trie, k).path;
    }
  }

  /** The node at the end of a path; the path may not leave the trie. */
  function SubtrieAt(t: Trie, path: Path): Trie {
    if path == [] || t.Leaf? then t
    else SubtrieAt(if path[0] then t.left else t.right, path[1..])
  }

  // ------------------------------------------------------------------ remove

  /** What removing k from t must leave behind. */
  ghost predicate Removed(t: Trie, k: Key, u: Root) {
    && u.Valid()
    && u.Contents() == t.Contents() - {k}
    && (u.Empty? <==> t.Leaf?)
    && (u.Full? ==> u.trie.Depth() <= t.Depth() && Top(u.trie.Key(), t.Key()) <= t.Depth())
  }

  lemma {:induction false} RemoveFromRemoves(t: Trie, k: Key)
    requires t.Valid() && t.Accepts(k) && FindFrom(t, k).Found?
    ensures Removed(t, k, RemoveFrom(t, k))
  {
    FindFromDecides(t, k);
    if t.Branch? {
      ChildrenAreDisjoint(t, k);
      BranchSplits(t, k);
      if t.left.Accepts(k) {
        FindFromDecides(t.left, k);
        RemoveFromRemoves(t.left, k);
        RemoveOnLeft(t, k, RemoveFrom(t.left, k));
      } else {
        FindFromDecides(t.right, k);
        RemoveFromRemoves(t.right, k);
        RemoveOnRight(t, k, RemoveFrom(t.right, k));
      }
    }
  }

  /** Removing below a branch either keeps the branch or shunts it out in favour of the sibling. */
  lemma RemoveOnLeft(t: Trie, k: Key, u: Root)
    requires t.Valid() && t.Branch? && k in t.left.Contents() && k !in t.right.Contents()
    requires Removed(t.left, k, u)
    ensures Removed(t, k, Full(if u.Empty? then t.right else t.(left := u.trie)))
  {
    DropFromHalf(t.left.Contents(), t.right.Contents(), k);
    TopSymmetric(t.key, t.right.Key());
    if u.Empty? {
      assert t.left.Contents() - {k} == map[];
      assert map[] + t.right.Contents() == t.right.Contents();
    } else {
      RemoveKeepsPlace(t, u.trie, true);
    }
  }

  lemma RemoveOnRight(t: Trie, k: Key, u: Root)
    requires t.Valid() && t.Branch? && k in t.right.Contents() && k !in t.left.Contents()
    requires Removed(t.right, k, u)
    ensures Removed(t, k, Full(if u.Empty? then t.left else t.(right := u.trie)))
  {
    DropFromHalf(t.left.Contents(), t.right.Contents(), k);
    StaleKeyStillGuides(t, t.left.Key());
    TopSymmetric(t.key, t.left.Key());
    if u.Empty? {
      assert t.right.Contents() - {k} == map[];
      assert t.left.Contents() + map[] == t.left.Contents();
    } else {
      RemoveKeepsPlace(t, u.trie, false);
    }
  }

  /** A subtrie may be replaced by any valid one of no greater depth that shares the bits above it. */
  lemma RemoveKeepsPlace(t: Trie, u: Trie, left: bool)
    requires t.Valid() && t.Branch? && u.Valid()
    requires var side := if left then t.left else t.right;
      u.Depth() <= side.Depth() && Top(u.Key(), side.Key()) <= side.Depth()
    ensures left ==> t.(left := u).Valid()
    ensures !left ==> t.(right := u).Valid()
  {
    var l, r, k := t.left.Key(), t.right.Key(), u.Key();
    TopSymmetric(l, r);
    TopSymmetric(k, l);
    TopSymmetric(k, r);
    if left {
      TopSplits(l, r, k);
    } else {
      TopSplits(l, r, k);
      TopUltrametric(t.key, r, k);
    }
  }

  /** Removal deletes exactly one key, or reports that there was nothing to delete. */
  lemma RemoveIsMapRemove(root: Root, k: Key)
    requires root.Valid()
    ensures var (root', done) := Remove(root, k);
      && root'.Valid()
      && done == (k in root.Contents())
      && root'.Contents() == root.Contents() - {k}
      && (!done ==> root' == root)
  {
    FindDecides(root, k);
    if k in root.Contents() {
      RemoveFromRemoves(root.trie, k);
    }
  }
}

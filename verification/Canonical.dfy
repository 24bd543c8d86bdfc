/** One element set, one shape: the trie forgets the history that built it. */
module Canonical {
  import opened Keys
  import opened Octets
  import opened Tries

  const HASH_BYTES := 32

  type Hash = s: seq<byte> | |s| == HASH_BYTES witness Zeros(HASH_BYTES)

  /** What an end node says its hash is. */
  const NO_HASH: Hash := Zeros(HASH_BYTES)

  /** It is all zeros. */
  lemma NoHashIsZero()
    ensures |NO_HASH| == 32 && forall i | 0 <= i < 32 :: NO_HASH[i] == 0
  {
  }

  /** The element hash and the pairing hash, as the trie's element type supplies them. */
  datatype Hasher = Hasher(leaf: Txo -> Hash, node: (Hash, Hash) -> Hash)

  /** The hash of a trie computed from scratch. */
  function TrieHash(h: Hasher, t: Trie): Hash {
    match t
    case Leaf(e) => h.leaf(e.Output())
    case Branch(l, r, _, _) => h.node(TrieHash(h, l), TrieHash(h, r))
  }

  /** Equal up to the stale bits of branch keys. */
  ghost predicate SameShape(t: Trie, u: Trie) {
    match (t, u)
    case (Leaf(e), Leaf(f)) => e == f
    case (Branch(l, r, _, d), Branch(l', r', _, d')) => d == d' && SameShape(l, l') && SameShape(r, r')
    case _ => false
  }

  lemma {:induction false} SameShapeSameHash(h: Hasher, t: Trie, u: Trie)
    requires SameShape(t, u)
    ensures TrieHash(h, t) == TrieHash(h, u)
  {
    if t.Branch? {
      SameShapeSameHash(h, t.left, u.left);
      SameShapeSameHash(h, t.right, u.right);
    }
  }

  /** Some stored key. */
  function AnyKey(t: Trie): Key {
    if t.Leaf? then t.elem.key else AnyKey(t.left)
  }

  lemma {:induction false} AnyKeyIsStored(t: Trie)
    requires t.Valid()
    ensures AnyKey(t) in t.Contents()
  {
    if t.Branch? {
      AnyKeyIsStored(t.left);
    }
  }

  /** Keys on opposite sides of a branch differ first at its depth, the larger one on the left. */
  lemma KeysAcross(t: Trie, x: Key, y: Key)
    requires t.Branch? && t.Valid() && x in t.left.Contents() && y in t.right.Contents()
    ensures Top(x, y) == t.depth && x > y
  {
    StoredIsAccepted(t.left, x);
    StoredIsAccepted(t.right, y);
    NearEachSide(t.left.Key(), t.right.Key(), x, y);
  }

  /** Keys on one side of a branch first differ below its depth. */
  lemma KeysWithin(t: Trie, x: Key, y: Key)
    requires t.Valid() && x in t.Contents() && y in t.Contents()
    ensures Top(x, y) <= t.Depth()
  {
    StoredIsAccepted(t, x);
    StoredIsAccepted(t, y);
    AcceptsIsNear(t, x);
    TopUltrametric(x, t.Key(), y);
  }

  /** The contents decide which side of its branch a key is on. */
  lemma SidesAgree(t: Trie, u: Trie, x: Key)
    requires t.Branch? && u.Branch? && t.Valid() && u.Valid()
    requires t.Contents() == u.Contents() && x in t.Contents()
    ensures t.depth <= u.depth
    ensures x in t.left.Contents() ==> x in u.left.Contents()
    ensures x in t.right.Contents() ==> x in u.right.Contents()
  {
    var a, b := AnyKey(t.left), AnyKey(t.right);
    AnyKeyIsStored(t.left);
    AnyKeyIsStored(t.right);
    ChildrenAreDisjoint(t, a);
    ChildrenAreDisjoint(t, b);
    KeysAcross(t, a, b);
    KeysWithin(u, a, b);
    if x in t.left.Contents() && x in u.right.Contents() {
      DepthsAgree(u, t);
      KeysAcross(t, x, b);
      if b in u.left.Contents() {
        KeysAcross(u, b, x);
      } else {
        KeysWithin(u.right, x, b);
      }
    }
    if x in t.right.Contents() && x in u.left.Contents() {
      DepthsAgree(u, t);
      KeysAcross(t, a, x);
      if a in u.right.Contents() {
        KeysAcross(u, x, a);
      } else {
        KeysWithin(u.left, a, x);
      }
    }
  }

  lemma DepthsAgree(t: Trie, u: Trie)
    requires t.Branch? && u.Branch? && t.Valid() && u.Valid()
    requires t.Contents() == u.Contents()
    ensures t.depth <= u.depth
  {
    var a, b := AnyKey(t.left), AnyKey(t.right);
    AnyKeyIsStored(t.left);
    AnyKeyIsStored(t.right);
    ChildrenAreDisjoint(t, a);
    ChildrenAreDisjoint(t, b);
    KeysAcross(t, a, b);
    KeysWithin(u, a, b);
  }

  /** What one side stores at x, the same side of the other trie stores. */
  lemma HalfAgrees(t: Trie, u: Trie, x: Key)
    requires t.Branch? && u.Branch? && t.Valid() && u.Valid()
    requires t.Contents() == u.Contents()
    ensures x in t.left.Contents() ==> x in u.left.Contents() && t.left.Contents()[x] == u.left.Contents()[x]
    ensures x in t.right.Contents() ==> x in u.right.Contents() && t.right.Contents()[x] == u.right.Contents()[x]
  {
    ChildrenAreDisjoint(t, x);
    ChildrenAreDisjoint(u, x);
    if x in t.Contents() {
      SidesAgree(t, u, x);
    }
  }

  ghost predicate Within(m: map<Key, Elem>, n: map<Key, Elem>) {
    forall x | x in m :: x in n && m[x] == n[x]
  }

  lemma WithinBoth(m: map<Key, Elem>, n: map<Key, Elem>)
    requires Within(m, n) && Within(n, m)
    ensures m == n
  {
  }

  lemma HalvesWithin(t: Trie, u: Trie)
    requires t.Branch? && u.Branch? && t.Valid() && u.Valid()
    requires t.Contents() == u.Contents()
    ensures Within(t.left.Contents(), u.left.Contents()) && Within(t.right.Contents(), u.right.Contents())
  {
    forall x | x in t.left.Contents() || x in t.right.Contents()
      ensures x in t.left.Contents() ==> x in u.left.Contents() && t.left.Contents()[x] == u.left.Contents()[x]
      ensures x in t.right.Contents() ==> x in u.right.Contents() && t.right.Contents()[x] == u.right.Contents()[x]
    {
      HalfAgrees(t, u, x);
    }
  }

  lemma HalvesAgree(t: Trie, u: Trie)
    requires t.Branch? && u.Branch? && t.Valid() && u.Valid()
    requires t.Contents() == u.Contents()
    ensures t.left.Contents() == u.left.Contents() && t.right.Contents() == u.right.Contents()
  {
    HalvesWithin(t, u);
    HalvesWithin(u, t);
    WithinBoth(t.left.Contents(), u.left.Contents());
    WithinBoth(t.right.Contents(), u.right.Contents());
  }

  /** A branch stores at least two keys, a leaf one. */
  lemma LeafIsNoBranch(t: Trie, u: Trie)
    requires t.Leaf? && u.Branch? && u.Valid()
    ensures t.Contents() != u.Contents()
  {
    var a, b := AnyKey(u.left), AnyKey(u.right);
    AnyKeyIsStored(u.left);
    AnyKeyIsStored(u.right);
    ChildrenAreDisjoint(u, a);
    ChildrenAreDisjoint(u, b);
  }

  /** Canonicity: valid tries that store the same elements have the same shape. */
  lemma {:induction false} ContentsDetermineShape(t: Trie, u: Trie)
    requires t.Valid() && u.Valid() && t.Contents() == u.Contents()
    ensures SameShape(t, u)
  {
    match (t, u) {
      case (Leaf(e), Leaf(f)) =>
        assert e.key in u.Contents();
      case (Leaf(_), Branch(_, _, _, _)) =>
        LeafIsNoBranch(t, u);
      case (Branch(_, _, _, _), Leaf(_)) =>
        LeafIsNoBranch(u, t);
      case (Branch(_, _, _, _), Branch(_, _, _, _)) =>
        DepthsAgree(t, u);
        DepthsAgree(u, t);
        HalvesAgree(t, u);
        ContentsDetermineShape(t.left, u.left);
        ContentsDetermineShape(t.right, u.right);
    }
  }

  // ------------------------------------------------------------------ whole histories

  datatype Update = Put(elem: Elem) | Drop(key: Key)

  /** The trie after a history of updates. */
  function Replay(root: Root, history: seq<Update>): Root
    decreases |history|
  {
    if history == [] then root
    else
      var next := match history[0]
        case Put(e) => Insert(root, e).0
        case Drop(k) => Remove(root, k).0;
      Replay(next, history[1..])
  }

  /** The map after the same history. A taken key keeps its element. */
  function ReplayMap(m: map<Key, Elem>, history: seq<Update>): map<Key, Elem>
    decreases |history|
  {
    if history == [] then m
    else
      var next := match history[0]
        case Put(e) => if e.key in m then m else m[e.key := e]
        case Drop(k) => m - {k};
      ReplayMap(next, history[1..])
  }

  /** Any history keeps the Patricia invariant and stores what a map would store. */
  lemma {:induction false} ReplayIsMapReplay(root: Root, history: seq<Update>)
    requires root.Valid()
    ensures Replay(root, history).Valid()
    ensures Replay(root, history).Contents() == ReplayMap(root.Contents(), history)
    decreases |history|
  {
    if history != [] {
      match history[0] {
        case Put(e) =>
          InsertIsMapInsert(root, e);
          ReplayIsMapReplay(Insert(root, e).0, history[1..]);
        case Drop(k) =>
          RemoveIsMapRemove(root, k);
          ReplayIsMapReplay(Remove(root, k).0, history[1..]);
      }
    }
  }

  /** The root hash a trie reports; an empty trie has none. */
  function RootHash(h: Hasher, root: Root): Hash
    requires root.Full?
  {
    TrieHash(h, root.trie)
  }

  lemma SameContentsSameRootHash(h: Hasher, r: Root, s: Root)
    requires r.Valid() && s.Valid() && r.Contents() == s.Contents()
    ensures r.Full? <==> s.Full?
    ensures r.Full? ==> RootHash(h, r) == RootHash(h, s)
  {
    if r.Full? {
      AnyKeyIsStored(r.trie);
    }
    if s.Full? {
      AnyKeyIsStored(s.trie);
    }
    if r.Full? && s.Full? {
      ContentsDetermineShape(r.trie, s.trie);
      SameShapeSameHash(h, r.trie, s.trie);
    }
  }

  /** History independence: two histories that leave the same elements leave the same root hash. */
  lemma HistoryIndependence(h: Hasher, history: seq<Update>, other: seq<Update>)
    requires ReplayMap(map[], history) == ReplayMap(map[], other)
    ensures var r, s := Replay(Empty, history), Replay(Empty, other);
      (r.Full? <==> s.Full?) && (r.Full? ==> RootHash(h, r) == RootHash(h, s))
  {
    ReplayIsMapReplay(Empty, history);
    ReplayIsMapReplay(Empty, other);
    SameContentsSameRootHash(h, Replay(Empty, history), Replay(Empty, other));
  }
}

/** Absence: neighbouring leaves, the consecutive test on their branches, and the nearest stored keys
    around a failed search. */
module Absence {
  import opened Keys
  import opened Tries
  import opened Canonical
  import opened Proofs

  // ------------------------------------------------------------------ the ends of a trie

  /** The leftmost leaf. */
  function Largest(t: Trie): Elem {
    if t.Leaf? then t.elem else Largest(t.left)
  }

  /** The rightmost leaf. */
  function Smallest(t: Trie): Elem {
    if t.Leaf? then t.elem else Smallest(t.right)
  }

  lemma {:induction false} EndsAreExtreme(t: Trie, k: Key)
    requires t.Valid()
    ensures Largest(t).key in t.Contents() && t.Contents()[Largest(t).key] == Largest(t)
    ensures Smallest(t).key in t.Contents() && t.Contents()[Smallest(t).key] == Smallest(t)
    ensures k in t.Contents() ==> Smallest(t).key <= k <= Largest(t).key
  {
    if t.Branch? {
      var a, b := Largest(t).key, Smallest(t).key;
      EndsAreExtreme(t.left, k);
      EndsAreExtreme(t.right, k);
      ChildrenAreDisjoint(t, a);
      ChildrenAreDisjoint(t, b);
      if k in t.left.Contents() {
        KeysAcross(t, k, b);
      } else if k in t.right.Contents() {
        KeysAcross(t, a, k);
      }
    }
  }

  // ------------------------------------------------------------------ neighbours

  /** x and y are stored, x is below y, and nothing stored lies between them. */
  ghost predicate Adjacent(t: Trie, x: Key, y: Key) {
    && x in t.Contents() && y in t.Contents() && x < y
    && forall k | k in t.Contents() :: !(x < k < y)
  }

  /** The key at the end of a path to a leaf. */
  function KeyAt(t: Trie, path: Path): Key {
    SubtrieAt(t, path).Key()
  }

  /** Every step from one index up to another goes the same way. */
  predicate Only(path: Path, from: nat, to: nat, b: bool) {
    forall i | from <= i < to && i < |path| :: path[i] == b
  }

  lemma OnlyOfTail(path: Path, from: nat, to: nat, b: bool)
    requires path != []
    ensures Only(path[1..], from, to, b) <==> Only(path, from + 1, to + 1, b)
  {
    if Only(path[1..], from, to, b) {
      forall i | from + 1 <= i < to + 1 && i < |path|
        ensures path[i] == b
      {
        assert path[i] == path[1..][i - 1];
      }
    }
  }

  /** Two paths part with the lower one going right and then left for ever, the upper one left and
      then right for ever. */
  predicate PartAsNeighbours(lower: Path, upper: Path) {
    lower != [] && upper != [] &&
    if lower[0] == upper[0] then PartAsNeighbours(lower[1..], upper[1..])
    else !lower[0] && Only(lower, 1, |lower|, true) && Only(upper, 1, |upper|, false)
  }

  lemma {:induction false} KeyAtIsStored(t: Trie, path: Path)
    requires t.Valid() && ToLeaf(t, path)
    ensures KeyAt(t, path) in t.Contents()
  {
    if t.Branch? {
      KeyAtIsStored(if path[0] then t.left else t.right, path[1..]);
    }
  }

  /** The extreme leaves are those reached by going one way only. */
  lemma {:induction false} ExtremePaths(t: Trie, path: Path)
    requires t.Valid() && ToLeaf(t, path)
    ensures Only(path, 0, |path|, true) <==> KeyAt(t, path) == Largest(t).key
    ensures Only(path, 0, |path|, false) <==> KeyAt(t, path) == Smallest(t).key
  {
    if t.Branch? {
      var child := if path[0] then t.left else t.right;
      ExtremePaths(child, path[1..]);
      OnlyOfTail(path, 0, |path| - 1, true);
      OnlyOfTail(path, 0, |path| - 1, false);
      KeyAtIsStored(child, path[1..]);
      EndsAreExtreme(t.left, 0);
      EndsAreExtreme(t.right, 0);
      if path[0] {
        KeysAcross(t, KeyAt(t, path), Smallest(t).key);
      } else {
        KeysAcross(t, Largest(t).key, KeyAt(t, path));
      }
    }
  }

  /** Neighbours on one side of a branch are neighbours in the whole. */
  lemma AdjacentOnOneSide(t: Trie, left: bool, x: Key, y: Key)
    requires t.Valid() && t.Branch?
    requires var side := if left then t.left else t.right; x in side.Contents() && y in side.Contents()
    ensures Adjacent(t, x, y) <==> Adjacent(if left then t.left else t.right, x, y)
  {
    var side, other := if left then t.left else t.right, if left then t.right else t.left;
    ChildrenAreDisjoint(t, x);
    ChildrenAreDisjoint(t, y);
    forall k | k in t.Contents()
      ensures k in side.Contents() || !(x < k < y)
    {
      if k in other.Contents() {
        if left {
          KeysAcross(t, x, k);
        } else {
          KeysAcross(t, k, y);
        }
      }
    }
    forall k | k in side.Contents()
      ensures k in t.Contents()
    {
      ChildrenAreDisjoint(t, k);
    }
  }

  /** Neighbours on both sides of a branch are the largest of its right and the smallest of its left. */
  lemma AdjacentAcross(t: Trie, x: Key, y: Key)
    requires t.Valid() && t.Branch? && x in t.right.Contents() && y in t.left.Contents()
    ensures Adjacent(t, x, y) <==> x == Largest(t.right).key && y == Smallest(t.left).key
  {
    ChildrenAreDisjoint(t, x);
    ChildrenAreDisjoint(t, y);
    KeysAcross(t, y, x);
    EndsAreExtreme(t.right, x);
    EndsAreExtreme(t.left, y);
    var a, b := Largest(t.right).key, Smallest(t.left).key;
    ChildrenAreDisjoint(t, a);
    ChildrenAreDisjoint(t, b);
    KeysAcross(t, y, a);
    KeysAcross(t, b, x);
    forall k | k in t.Contents()
      ensures !(a < k < b)
    {
      EndsAreExtreme(t.right, k);
      EndsAreExtreme(t.left, k);
    }
  }

  /** Being neighbours is a matter of the two paths alone. */
  lemma {:induction false} NeighboursByPath(t: Trie, lower: Path, upper: Path)
    requires t.Valid() && ToLeaf(t, lower) && ToLeaf(t, upper)
    ensures Adjacent(t, KeyAt(t, lower), KeyAt(t, upper)) <==> PartAsNeighbours(lower, upper)
  {
    if t.Branch? {
      var x, y := KeyAt(t, lower), KeyAt(t, upper);
      var a, b := if lower[0] then t.left else t.right, if upper[0] then t.left else t.right;
      KeyAtIsStored(a, lower[1..]);
      KeyAtIsStored(b, upper[1..]);
      if lower[0] == upper[0] {
        NeighboursByPath(a, lower[1..], upper[1..]);
        AdjacentOnOneSide(t, lower[0], x, y);
      } else if lower[0] {
        KeysAcross(t, x, y);
      } else {
        AdjacentAcross(t, x, y);
        OnlyOfTail(lower, 0, |lower| - 1, true);
        OnlyOfTail(upper, 0, |upper| - 1, false);
        ExtremePaths(t.right, lower[1..]);
        ExtremePaths(t.left, upper[1..]);
      }
    }
  }

  /** The path that goes one way as long as it can. */
  function AlwaysOneWay(t: Trie, left: bool): Path {
    if t.Leaf? then [] else [left] + AlwaysOneWay(if left then t.left else t.right, left)
  }

  lemma {:induction false} OneWayEnds(t: Trie, left: bool)
    ensures ToLeaf(t, AlwaysOneWay(t, left))
    ensures KeyAt(t, AlwaysOneWay(t, left)) == if left then Largest(t).key else Smallest(t).key
  {
    if t.Branch? {
      OneWayEnds(if left then t.left else t.right, left);
      assert AlwaysOneWay(t, left)[1..] == AlwaysOneWay(if left then t.left else t.right, left);
    }
  }

  // ------------------------------------------------------------------ the consecutive test

  lemma {:induction false} SiblingKinds(h: Hasher, t: Trie, path: Path)
    requires ToLeaf(t, path)
    ensures |Siblings(h, t, path)| == |path|
    ensures forall i | 0 <= i < |path| :: Siblings(h, t, path)[i].kind == if path[i] then RightEntry else LeftEntry
  {
    if t.Branch? {
      SiblingKinds(h, if path[0] then t.left else t.right, path[1..]);
    }
  }

  /** The branches of two leaves agree exactly as far as their paths do. */
  lemma {:induction false} SharedAlongPaths(h: Hasher, t: Trie, a: Path, b: Path, x: seq<Entry>, y: seq<Entry>)
    requires ToLeaf(t, a) && ToLeaf(t, b) && a != b
    ensures Shared(Siblings(h, t, a) + x, Siblings(h, t, b) + y) == Shared(a, b)
    ensures Shared(a, b) < |a| && Shared(a, b) < |b|
  {
    var s, u := Siblings(h, t, a), Siblings(h, t, b);
    assert (s + x)[1..] == s[1..] + x && (u + y)[1..] == u[1..] + y;
    if a[0] == b[0] {
      SharedAlongPaths(h, if a[0] then t.left else t.right, a[1..], b[1..], x, y);
    }
  }

  lemma {:induction false} PartAtSharedStep(a: Path, b: Path)
    ensures var i := Shared(a, b);
      PartAsNeighbours(a, b) <==>
        i < |a| && i < |b| && !a[i] && Only(a, i + 1, |a|, true) && Only(b, i + 1, |b|, false)
  {
    if a != [] && b != [] && a[0] == b[0] {
      PartAtSharedStep(a[1..], b[1..]);
      var i := Shared(a[1..], b[1..]);
      OnlyOfTail(a, i + 1, |a| - 1, true);
      OnlyOfTail(b, i + 1, |b| - 1, false);
    }
  }

  /** The kind of the entry at an index of a branch with a given path. */
  function KindAt(path: Path, j: nat): Kind {
    if j == 0 then RootEntry
    else if j > |path| then LeafEntry
    else if path[j - 1] then RightEntry
    else LeftEntry
  }

  /** b has the entries of a branch whose path is path. */
  predicate Spells(b: seq<Entry>, path: Path) {
    |b| == |path| + 2 && forall j | 0 <= j < |b| :: b[j].kind == KindAt(path, j)
  }

  lemma BranchSpells(h: Hasher, t: Trie, path: Path)
    requires ToLeaf(t, path)
    ensures Spells(BranchOf(h, t, path), path)
  {
    SiblingKinds(h, t, path);
    var b, s := BranchOf(h, t, path), Siblings(h, t, path);
    forall j | 0 <= j < |b|
      ensures b[j].kind == KindAt(path, j)
    {
      if 0 < j <= |path| {
        assert b[j] == s[j - 1];
      }
    }
  }

  /** Scanning a branch is checking a stretch of its path. */
  lemma {:induction false} ScanIsOnly(b: seq<Entry>, path: Path, j: nat, limit: nat, left: bool)
    requires Spells(b, path)
    ensures AllUntilLeaf(b, j + 1, limit + 1, if left then RightEntry else LeftEntry) <==> Only(path, j, limit, left)
    decreases |path| - j
  {
    if j < limit && j < |path| {
      ScanIsOnly(b, path, j + 1, limit, left);
    }
  }

  /** The test as coded, read off the paths of two branches that part after step i. */
  lemma TestOnPaths(a: seq<Entry>, b: seq<Entry>, lower: Path, upper: Path, i: nat)
    requires Spells(a, lower) && Spells(b, upper)
    requires i < |lower| && i < |upper| && lower[i] != upper[i]
    ensures ConsecutiveFrom(a, b, i + 1)
      <==> !lower[i] && Only(lower, i + 1, |lower|, true) && Only(upper, i + 1, |lower| + 1, false)
  {
    ScanIsOnly(a, lower, i + 1, |lower| + 1, true);
    ScanIsOnly(b, upper, i + 1, |lower| + 1, false);
    assert a[i + 1].kind == KindAt(lower, i + 1) && b[i + 1].kind == KindAt(upper, i + 1);
  }

  /** The full test, read off the paths. */
  lemma FullTestOnPaths(a: seq<Entry>, b: seq<Entry>, lower: Path, upper: Path, i: nat)
    requires Spells(a, lower) && Spells(b, upper) && Shared(a, b) == i + 1
    requires i < |lower| && i < |upper| && lower[i] != upper[i]
    ensures ConsecutiveInFull(a, b)
      <==> !lower[i] && Only(lower, i + 1, |lower|, true) && Only(upper, i + 1, |upper|, false)
  {
    TestOnPaths(a, b, lower, upper, i);
    ScanIsOnly(b, upper, i + 1, |upper| + 1, false);
    OnlyIsMonotone(upper, i + 1, |upper|, |lower| + 1, false);
  }

  lemma OnlyIsMonotone(path: Path, from: nat, to: nat, limit: nat, b: bool)
    requires to >= |path|
    ensures Only(path, from, to, b) ==> Only(path, from, limit, b)
    ensures Only(path, from, to, b) <==> Only(path, from, to + 1, b)
  {
  }

  /** A passed test leaves only the entries beyond the lower branch's length unchecked. */
  lemma {:induction false} UncheckedEntries(a: seq<Entry>, b: seq<Entry>, lower: Path, upper: Path, i: nat)
    requires Spells(a, lower) && Spells(b, upper) && Shared(a, b) == i + 1
    requires i < |lower| && i < |upper| && lower[i] != upper[i]
    ensures ConsecutiveAsCoded(a, b) ==> (ConsecutiveInFull(a, b) <==> AllUntilLeaf(b, |a|, |b|, LeftEntry))
  {
    TestOnPaths(a, b, lower, upper, i);
    FullTestOnPaths(a, b, lower, upper, i);
    ScanIsOnly(b, upper, |lower| + 1, |upper| + 1, false);
    OnlyIsMonotone(upper, |lower| + 1, |upper|, 0, false);
    OnlyInTwo(upper, i + 1, |lower| + 1, |upper|, false);
  }

  lemma OnlyInTwo(path: Path, from: nat, mid: nat, to: nat, b: bool)
    requires from <= mid
    ensures Only(path, from, to, b) ==> Only(path, mid, to, b)
    ensures Only(path, from, mid, b) && Only(path, mid, to, b) ==> Only(path, from, to, b)
  {
  }

  /** The branches of two leaves of one trie part one entry after their paths do. */
  lemma BranchesPart(h: Hasher, t: Trie, lower: Path, upper: Path)
    requires ToLeaf(t, lower) && ToLeaf(t, upper) && lower != upper
    ensures var i := Shared(lower, upper);
      && Shared(BranchOf(h, t, lower), BranchOf(h, t, upper)) == i + 1
      && i < |lower| && i < |upper|
  {
    var x, y := [Entry(LeafEntry, TrieHash(h, SubtrieAt(t, lower)))], [Entry(LeafEntry, TrieHash(h, SubtrieAt(t, upper)))];
    SharedAlongPaths(h, t, lower, upper, x, y);
    SharedSkipsHead(Entry(RootEntry, TrieHash(h, t)), SiblingsAndLeaf(h, t, lower), SiblingsAndLeaf(h, t, upper));
  }

  lemma SharedSkipsHead(r: Entry, a: seq<Entry>, b: seq<Entry>)
    ensures Shared([r] + a, [r] + b) == 1 + Shared(a, b)
  {
    assert ([r] + a)[1..] == a;
    assert ([r] + b)[1..] == b;
  }

  lemma {:induction false} SharedWithSelf(a: seq<Entry>)
    ensures Shared(a, a) == |a|
  {
    if a != [] {
      SharedWithSelf(a[1..]);
    }
  }

  lemma {:induction false} NotApartFromSelf(a: Path)
    ensures !PartAsNeighbours(a, a)
  {
    if a != [] {
      NotApartFromSelf(a[1..]);
    }
  }

  /** The test with both scans run in full is exactly adjacency of the two leaves. */
  lemma FullTestIsAdjacency(h: Hasher, t: Trie, lower: Path, upper: Path)
    requires t.Valid() && ToLeaf(t, lower) && ToLeaf(t, upper)
    ensures ConsecutiveInFull(BranchOf(h, t, lower), BranchOf(h, t, upper))
      <==> Adjacent(t, KeyAt(t, lower), KeyAt(t, upper))
  {
    var a, b := BranchOf(h, t, lower), BranchOf(h, t, upper);
    NeighboursByPath(t, lower, upper);
    if lower == upper {
      SharedWithSelf(a);
      NotApartFromSelf(lower);
    } else {
      BranchSpells(h, t, lower);
      BranchSpells(h, t, upper);
      BranchesPart(h, t, lower, upper);
      FullTestOnPaths(a, b, lower, upper, Shared(lower, upper));
      PartAtSharedStep(lower, upper);
    }
  }

  /** What the test as coded decides: adjacency, except that the entries of the upper branch beyond the
      length of the lower one go unchecked. Adjacent leaves always pass; a pass means adjacency
      exactly when those unchecked steps all go right, in particular when there are none. */
  lemma CodedTestAndAdjacency(h: Hasher, t: Trie, lower: Path, upper: Path)
    requires t.Valid() && ToLeaf(t, lower) && ToLeaf(t, upper)
    ensures var (a, b) := (BranchOf(h, t, lower), BranchOf(h, t, upper));
      && (Adjacent(t, KeyAt(t, lower), KeyAt(t, upper)) ==> ConsecutiveAsCoded(a, b))
      && (ConsecutiveAsCoded(a, b) ==>
          (Adjacent(t, KeyAt(t, lower), KeyAt(t, upper)) <==> AllUntilLeaf(b, |a|, |b|, LeftEntry)))
      && (|b| <= |a| ==> (ConsecutiveAsCoded(a, b) <==> Adjacent(t, KeyAt(t, lower), KeyAt(t, upper))))
  {
    var a, b := BranchOf(h, t, lower), BranchOf(h, t, upper);
    FullTestIsAdjacency(h, t, lower, upper);
    if lower == upper {
      SharedWithSelf(a);
    } else {
      BranchSpells(h, t, lower);
      BranchSpells(h, t, upper);
      BranchesPart(h, t, lower, upper);
      var i := Shared(lower, upper);
      UncheckedEntries(a, b, lower, upper, i);
    }
  }

  function BareLeaf(k: Key): Trie {
    Leaf(Elem(k, 0, [], 0, 0, 0))
  }

  /** The keys 0, 4, 5 and 6. */
  function FourKeys(): Trie {
    Branch(Branch(BareLeaf(6), Branch(BareLeaf(5), BareLeaf(4), 4, 1), 4, 2), BareLeaf(0), 0, 3)
  }

  lemma FourKeysStored()
    ensures var t := FourKeys();
      && t.Valid() && ToLeaf(t, [false]) && ToLeaf(t, [true, false, true])
      && KeyAt(t, [false]) == 0 && KeyAt(t, [true, false, true]) == 5 && 4 in t.Contents()
  {
    var t, lower, upper := FourKeys(), [false], [true, false, true];
    assert upper[1..] == [false, true] && upper[1..][1..] == [true];
    assert ToLeaf(t, upper) && SubtrieAt(t, upper) == t.left.right.left;
    assert ToLeaf(t, lower) && SubtrieAt(t, lower) == t.right;
    assert 4 in t.left.right.Contents();
    assert 4 in t.left.Contents();
  }

  /** The unchecked entries matter: the test passes the leaves 0 and 5 although 4 is stored. */
  lemma ShortLowerBranchMisleads(h: Hasher)
    ensures var (t, lower, upper) := (FourKeys(), [false], [true, false, true]);
      && t.Valid() && ToLeaf(t, lower) && ToLeaf(t, upper)
      && KeyAt(t, lower) == 0 && KeyAt(t, upper) == 5
      && ConsecutiveAsCoded(BranchOf(h, t, lower), BranchOf(h, t, upper))
      && !Adjacent(t, 0, 5)
  {
    FourKeysStored();
    PassesUnchecked(h, FourKeys(), [false], [true, false, true]);
  }

  lemma PassesUnchecked(h: Hasher, t: Trie, lower: Path, upper: Path)
    requires ToLeaf(t, lower) && ToLeaf(t, upper) && lower == [false] && upper == [true, false, true]
    ensures ConsecutiveAsCoded(BranchOf(h, t, lower), BranchOf(h, t, upper))
  {
    var a, b := BranchOf(h, t, lower), BranchOf(h, t, upper);
    BranchSpells(h, t, lower);
    BranchSpells(h, t, upper);
    BranchesPart(h, t, lower, upper);
    TestOnPaths(a, b, lower, upper, 0);
  }

  // ------------------------------------------------------------------ around a failed search

  /** The element nearest above, as the search result's unary plus finds it: the found element, or the
      smallest below the left child of the branch where the search stopped. A search that stopped at
      the genitor continues at the root; an empty trie has no path to follow. */
  function Plus(root: Root, k: Key): (e: Nearest)
  {
    if root.Empty? then None
    else
      match Find(root, k)
      case Found(e, _) => Some(e)
      case Missing(path) =>
        if path == [] then Some(Smallest(root.trie))
        else
          var s := SubtrieAt(root.trie, path[1..]);
          if s.Branch? then Some(Smallest(s.left)) else None
  }

  /** The element nearest below, as unary minus finds it; below the genitor's right child, the end
      node, there is no element. */
  function Minus(root: Root, k: Key): (e: Nearest)
  {
    if root.Empty? then None
    else
      match Find(root, k)
      case Found(e, _) => Some(e)
      case Missing(path) =>
        if path == [] then None
        else
          var s := SubtrieAt(root.trie, path[1..]);
          if s.Branch? then Some(Largest(s.right)) else None
  }

  datatype Nearest = None | Some(elem: Elem)

  /** Of a stored key both are its own element. */
  lemma NearestOfStored(root: Root, k: Key)
    requires root.Valid() && k in root.Contents()
    ensures Plus(root, k) == Minus(root, k) == Some(root.Contents()[k])
  {
    FindDecides(root, k);
  }

  ghost predicate IsSuccessor(root: Root, k: Key, e: Nearest) {
    if e.None? then forall j | j in root.Contents() :: j <= k
    else
      && e.elem.key > k && e.elem.key in root.Contents() && root.Contents()[e.elem.key] == e.elem
      && forall j | j in root.Contents() :: !(k < j < e.elem.key)
  }

  ghost predicate IsPredecessor(root: Root, k: Key, e: Nearest) {
    if e.None? then forall j | j in root.Contents() :: j >= k
    else
      && e.elem.key < k && e.elem.key in root.Contents() && root.Contents()[e.elem.key] == e.elem
      && forall j | j in root.Contents() :: !(e.elem.key < j < k)
  }

  /** All keys below a node that rejects k lie on one side of k, the side of the node's own key. */
  lemma RejectedIsOneSided(t: Trie, k: Key, j: Key)
    requires t.Valid() && !t.Accepts(k) && j in t.Contents()
    ensures t.Key() != k && j != k && (j < k <==> t.Key() < k)
  {
    StoredIsAccepted(t, j);
    AcceptsIsNear(t, j);
    AcceptsIsNear(t, k);
    TopSymmetric(k, t.Key());
    CloserIsSameSide(k, t.Key(), j);
  }

  /** The branch where a search for an absent key stops. */
  function Stop(t: Trie, k: Key): Trie
    requires t.Accepts(k) && FindFrom(t, k).Missing?
  {
    if t.left.Accepts(k) then Stop(t.left, k) else if t.right.Accepts(k) then Stop(t.right, k) else t
  }

  lemma {:induction false} StopIsSearchEnd(t: Trie, k: Key)
    requires t.Valid() && t.Accepts(k) && FindFrom(t, k).Missing?
    ensures SubtrieAt(t, FindFrom(t, k).path) == Stop(t, k)
    ensures var s := Stop(t, k); s.Branch? && s.Valid() && s.Accepts(k) && !s.left.Accepts(k) && !s.right.Accepts(k)
  {
    if t.left.Accepts(k) {
      StopIsSearchEnd(t.left, k);
      assert FindFrom(t, k).path[1..] == FindFrom(t.left, k).path;
    } else if t.right.Accepts(k) {
      StopIsSearchEnd(t.right, k);
      assert FindFrom(t, k).path[1..] == FindFrom(t.right, k).path;
    }
  }

  /** What the search's last branch stores, the whole trie stores. */
  lemma {:induction false} StopIsPart(t: Trie, k: Key, j: Key)
    requires t.Valid() && t.Accepts(k) && FindFrom(t, k).Missing?
    ensures j in Stop(t, k).Contents() ==> j in t.Contents() && t.Contents()[j] == Stop(t, k).Contents()[j]
  {
    ChildrenAreDisjoint(t, j);
    if t.left.Accepts(k) {
      StopIsPart(t.left, k, j);
    } else if t.right.Accepts(k) {
      StopIsPart(t.right, k, j);
    }
  }

  /** A stored key outside the branch where the search stopped lies beyond k and everything in it. */
  lemma {:induction false} StopSpan(t: Trie, k: Key, j: Key, x: Key)
    requires t.Valid() && t.Accepts(k) && FindFrom(t, k).Missing?
    requires j in t.Contents() && x in Stop(t, k).Contents()
    ensures j in Stop(t, k).Contents() || (j < k && j < x) || (j > k && j > x)
    decreases t, 1
  {
    if t.left.Accepts(k) {
      StopSpanStep(t, k, j, x, true);
    } else if t.right.Accepts(k) {
      BranchSplits(t, k);
      StopSpanStep(t, k, j, x, false);
    }
  }

  lemma {:induction false} StopSpanStep(t: Trie, k: Key, j: Key, x: Key, left: bool)
    requires t.Valid() && t.Branch? && t.Accepts(k) && FindFrom(t, k).Missing?
    requires var side := if left then t.left else t.right;
      side.Accepts(k) && FindFrom(side, k).Missing? && Stop(t, k) == Stop(side, k)
    requires j in t.Contents() && x in Stop(t, k).Contents()
    ensures j in Stop(t, k).Contents() || (j < k && j < x) || (j > k && j > x)
    decreases t, 0
  {
    var side := if left then t.left else t.right;
    if j in side.Contents() {
      StopSpan(side, k, j, x);
    } else {
      StopIsPart(side, k, x);
      OtherSideIsOutside(t, k, j, left, x);
    }
  }

  lemma OtherSideIsOutside(t: Trie, k: Key, j: Key, left: bool, x: Key)
    requires t.Valid() && t.Branch?
    requires var (side, other) := if left then (t.left, t.right) else (t.right, t.left);
      side.Accepts(k) && j in other.Contents()
    ensures left ==> j < k && (x in t.left.Contents() ==> j < x)
    ensures !left ==> j > k && (x in t.right.Contents() ==> j > x)
  {
    ChildAcceptsFirst(t, k);
    BranchSplits(t, k);
    StoredIsAccepted(if left then t.right else t.left, j);
    if left {
      NearEachSide(t.left.Key(), t.right.Key(), k, j);
      if x in t.left.Contents() {
        KeysAcross(t, x, j);
      }
    } else {
      NearEachSide(t.left.Key(), t.right.Key(), j, k);
      if x in t.right.Contents() {
        KeysAcross(t, j, x);
      }
    }
  }

  /** The branch where the search stopped straddles k: its right child lies below, its left child above. */
  predicate Straddles(s: Trie, k: Key)
    requires s.Branch?
  {
    Compare(s.left.Key(), k) < 0 && Compare(s.right.Key(), k) > 0
  }

  /** Within the branch where the search stopped, each child is wholly on one side of k. */
  lemma StopSides(s: Trie, k: Key, j: Key)
    requires s.Branch? && s.Valid() && !s.left.Accepts(k) && !s.right.Accepts(k) && j in s.Contents()
    ensures j in s.left.Contents() ==> j != k && (j > k <==> Compare(s.left.Key(), k) < 0) && j >= Smallest(s.left).key
    ensures j in s.right.Contents() ==> j != k && (j < k <==> Compare(s.right.Key(), k) > 0) && j <= Largest(s.right).key
  {
    EndsAreExtreme(s.left, j);
    EndsAreExtreme(s.right, j);
    if j in s.left.Contents() {
      RejectedIsOneSided(s.left, k, j);
    }
    if j in s.right.Contents() {
      RejectedIsOneSided(s.right, k, j);
    }
  }

  /** When a search for an absent key stops at a branch, plus gives the successor and minus the
      predecessor exactly when that branch straddles the key. */
  lemma NearestAtBranch(root: Root, k: Key)
    requires root.Full? && root.Valid() && root.trie.Accepts(k) && FindFrom(root.trie, k).Missing?
    ensures var s := SubtrieAt(root.trie, FindFrom(root.trie, k).path);
      && s.Branch?
      && (IsSuccessor(root, k, Plus(root, k)) <==> Straddles(s, k))
      && (IsPredecessor(root, k, Minus(root, k)) <==> Straddles(s, k))
  {
    var t := root.trie;
    StopIsSearchEnd(t, k);
    FindFromDecides(t, k);
    var s := Stop(t, k);
    var up, down := Smallest(s.left).key, Largest(s.right).key;
    assert Find(root, k).path[1..] == FindFrom(t, k).path;
    EndsAreExtreme(s.left, 0);
    EndsAreExtreme(s.right, 0);
    ChildrenAreDisjoint(s, up);
    ChildrenAreDisjoint(s, down);
    StopIsPart(t, k, up);
    StopIsPart(t, k, down);
    StopSides(s, k, up);
    StopSides(s, k, down);
    KeysAcross(s, up, down);
    if Straddles(s, k) {
      forall j | j in t.Contents()
        ensures !(down < j < k) && !(k < j < up)
      {
        StopSpan(t, k, j, up);
        StopSpan(t, k, j, down);
        if j in s.Contents() {
          StopSides(s, k, j);
        }
      }
    }
  }

  /** When the search does not get past the genitor, plus gives the successor exactly when the key is
      below the whole trie, and then minus is right to find nothing. */
  lemma NearestAtGenitor(root: Root, k: Key)
    requires root.Full? && root.Valid() && !root.trie.Accepts(k)
    ensures IsSuccessor(root, k, Plus(root, k)) <==> k < root.trie.Key()
    ensures IsPredecessor(root, k, Minus(root, k)) <==> k < root.trie.Key()
  {
    var t := root.trie;
    EndsAreExtreme(t, 0);
    forall j | j in t.Contents()
      ensures (j < k <==> t.Key() < k) && j != k && j >= Smallest(t).key
    {
      RejectedIsOneSided(t, k, j);
      EndsAreExtreme(t, j);
    }
    assert Smallest(t).key in root.Contents();
    if t.Key() < k {
      assert Smallest(t).key < k;
    }
  }
}

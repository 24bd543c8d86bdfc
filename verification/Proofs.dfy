/** Membership and absence proofs: the branch of hashes from a leaf down to the root. */
module Proofs {
  import opened Keys
  import opened Tries
  import opened Canonical

  datatype Kind = RootEntry | LeafEntry | LeftEntry | RightEntry

  datatype Entry = Entry(kind: Kind, hash: Hash)

  /** Hash upwards from the entries below index n, until an entry that is no sibling. */
  function Climb(h: Hasher, b: seq<Entry>, n: nat, hash: Hash): Hash
    requires n <= |b|
  {
    if n == 0 then hash
    else match b[n - 1].kind
      case LeftEntry => Climb(h, b, n - 1, h.node(b[n - 1].hash, hash))
      case RightEntry => Climb(h, b, n - 1, h.node(hash, b[n - 1].hash))
      case _ => hash
  }

  /** What it means for a branch to vouch for a leaf hash. */
  predicate Vouches(h: Hasher, b: seq<Entry>, hash: Hash)
    requires b != []
  {
    && hash == b[|b| - 1].hash
    && Climb(h, b, |b| - 1, hash) == b[0].hash
  }

  /** How much two branches, or two paths, share at their beginning. */
  function Shared<T(==)>(lower: seq<T>, upper: seq<T>): (n: nat)
    ensures n <= |lower| && n <= |upper|
    ensures n < |lower| && n < |upper| ==> lower[n] != upper[n]
  {
    if lower == [] || upper == [] || lower[0] != upper[0] then 0
    else 1 + Shared(lower[1..], upper[1..])
  }

  /** Up to the first leaf entry or the limit, only entries of one kind. */
  predicate AllUntilLeaf(b: seq<Entry>, j: nat, limit: nat, kind: Kind)
    decreases limit - j
  {
    j >= limit || j >= |b| || b[j].kind == LeafEntry || (b[j].kind == kind && AllUntilLeaf(b, j + 1, limit, kind))
  }

  /** The test for neighbouring leaves as it is coded: both scans stop at the end of the lower branch. */
  predicate ConsecutiveAsCoded(lower: seq<Entry>, upper: seq<Entry>) {
    ConsecutiveFrom(lower, upper, Shared(lower, upper))
  }

  predicate ConsecutiveFrom(lower: seq<Entry>, upper: seq<Entry>, i: nat) {
    && i < |lower| && i < |upper|
    && lower[i].kind == LeftEntry && AllUntilLeaf(lower, i + 1, |lower|, RightEntry)
    && upper[i].kind == RightEntry && AllUntilLeaf(upper, i + 1, |lower|, LeftEntry)
  }

  /** The same test with the second scan running to the end of the upper branch. */
  predicate ConsecutiveInFull(lower: seq<Entry>, upper: seq<Entry>) {
    ConsecutiveAsCoded(lower, upper) && AllUntilLeaf(upper, Shared(lower, upper) + 1, |upper|, LeftEntry)
  }

  class Branch {
    var hashes: seq<Entry>

    constructor ()
      ensures hashes == []
    {
      hashes := [];
    }

    method Push(kind: Kind, hash: Hash)
      modifies this
      ensures hashes == old(hashes) + [Entry(kind, hash)]
    {
      hashes := hashes + [Entry(kind, hash)];
    }

    method Validate(h: Hasher, leafHash: Hash) returns (ok: bool)
      requires hashes != []
      ensures ok == Vouches(h, hashes, leafHash)
    {
      var th := |hashes| - 1;
      var hash := leafHash;
      if hash != hashes[th].hash {
        return false;
      }
      while th > 0
        invariant 0 <= th < |hashes|
        invariant Climb(h, hashes, th, hash) == Climb(h, hashes, |hashes| - 1, leafHash)
        decreases th
      {
        th := th - 1;
        if hashes[th].kind == LeftEntry {
          hash := h.node(hashes[th].hash, hash);
        } else if hashes[th].kind == RightEntry {
          hash := h.node(hash, hashes[th].hash);
        } else {
          return hash == hashes[0].hash;
        }
      }
      return hash == hashes[0].hash;
    }

    /** One of the two scans: every entry from start on has the given kind, until a leaf entry or the limit. */
    static method ScanUntilLeaf(b: seq<Entry>, start: nat, limit: nat, kind: Kind) returns (ok: bool)
      requires (start < |b| && b[|b| - 1].kind == LeafEntry) || limit <= |b|
      ensures ok == AllUntilLeaf(b, start, limit, kind)
    {
      var j := start;
      while j < limit
        invariant start <= j && (j < limit ==> j < |b|)
        invariant AllUntilLeaf(b, start, limit, kind) == AllUntilLeaf(b, j, limit, kind)
      {
        if b[j].kind == LeafEntry {
          return true;
        }
        if b[j].kind != kind {
          return false;
        }
        j := j + 1;
      }
      return true;
    }

    /** The upper branch must end in its leaf entry, or the second scan would run off its end. */
    static method Consecutive(lower: Branch, upper: Branch) returns (ok: bool)
      requires upper.hashes != [] && upper.hashes[|upper.hashes| - 1].kind == LeafEntry
      ensures ok == ConsecutiveAsCoded(lower.hashes, upper.hashes)
    {
      var a, b := lower.hashes, upper.hashes;
      var least := if |a| < |b| then |a| else |b|;
      var i := 0;
      while i < least && a[i] == b[i]
        invariant 0 <= i <= least
        invariant Shared(a, b) == i + Shared(a[i..], b[i..])
      {
        i := i + 1;
      }
      if i == least {
        return false;
      }
      if a[i].kind != LeftEntry {
        return false;
      }
      ok := ScanUntilLeaf(a, i + 1, |a|, RightEntry);
      if !ok || b[i].kind != RightEntry {
        return false;
      }
      ok := ScanUntilLeaf(b, i + 1, |a|, LeftEntry);
    }
  }

  // ------------------------------------------------------------------ the branch of a leaf

  /** A path that ends at a leaf. */
  ghost predicate ToLeaf(t: Trie, path: Path) {
    match t
    case Leaf(_) => path == []
    case Branch(l, r, _, _) => path != [] && ToLeaf(if path[0] then l else r, path[1..])
  }

  /** The sibling hashes met on a path, the topmost first. */
  function Siblings(h: Hasher, t: Trie, path: Path): seq<Entry> {
    if path == [] || t.Leaf? then []
    else if path[0] then [Entry(RightEntry, TrieHash(h, t.right))] + Siblings(h, t.left, path[1..])
    else [Entry(LeftEntry, TrieHash(h, t.left))] + Siblings(h, t.right, path[1..])
  }

  function SiblingsAndLeaf(h: Hasher, t: Trie, path: Path): seq<Entry> {
    Siblings(h, t, path) + [Entry(LeafEntry, TrieHash(h, SubtrieAt(t, path)))]
  }

  /** The branch of the leaf at the end of a path. */
  function BranchOf(h: Hasher, t: Trie, path: Path): seq<Entry> {
    [Entry(RootEntry, TrieHash(h, t))] + SiblingsAndLeaf(h, t, path)
  }

  /** A successful search ends at the leaf it returns. */
  lemma {:induction false} FoundAtLeaf(t: Trie, k: Key)
    requires t.Accepts(k) && FindFrom(t, k).Found?
    ensures var s := FindFrom(t, k); ToLeaf(t, s.path) && SubtrieAt(t, s.path) == Leaf(s.elem)
  {
    if t.Branch? {
      if t.left.Accepts(k) {
        FoundAtLeaf(t.left, k);
        assert FindFrom(t, k).path[1..] == FindFrom(t.left, k).path;
      } else {
        FoundAtLeaf(t.right, k);
        assert FindFrom(t, k).path[1..] == FindFrom(t.right, k).path;
      }
    }
  }

  // ------------------------------------------------------------------ soundness

  /** Two inputs with one hash. */
  datatype Collision =
    | TwoLeaves(x: Txo, y: Txo)
    | TwoNodes(a: Hash, b: Hash, c: Hash, d: Hash)
    | LeafAndNode(x: Txo, a: Hash, b: Hash)
  {
    predicate Genuine(h: Hasher) {
      match this
      case TwoLeaves(x, y) => x != y && h.leaf(x) == h.leaf(y)
      case TwoNodes(a, b, c, d) => (a, b) != (c, d) && h.node(a, b) == h.node(c, d)
      case LeafAndNode(x, a, b) => h.leaf(x) == h.node(a, b)
    }
  }

  datatype Verdict = Stored | Broken(collision: Collision)

  /** A climb that gets to the end of these entries stops there. */
  predicate Stops(head: seq<Entry>) {
    head != [] ==> head[|head| - 1].kind.RootEntry? || head[|head| - 1].kind.LeafEntry?
  }

  predicate AllSiblings(steps: seq<Entry>) {
    forall s | s in steps :: s.kind.LeftEntry? || s.kind.RightEntry?
  }

  /** The element that an output belongs to is stored. What its keeper notes about it is not hashed. */
  ghost predicate Holds(t: Trie, x: Txo) {
    x.key in t.Contents() && t.Contents()[x.key].Output() == x
  }

  /** Hash a list of siblings, the topmost first, over a leaf hash. */
  function Fold(h: Hasher, steps: seq<Entry>, hash: Hash): Hash
    requires AllSiblings(steps)
  {
    if steps == [] then hash
    else if steps[0].kind.LeftEntry? then h.node(steps[0].hash, Fold(h, steps[1..], hash))
    else h.node(Fold(h, steps[1..], hash), steps[0].hash)
  }

  /** Follow siblings that hash to the trie's root: they lead to the stored output, or to the place
      where the hash functions were made to collide. */
  function Trace(h: Hasher, t: Trie, steps: seq<Entry>, x: Txo): Verdict
    requires AllSiblings(steps)
  {
    if steps == [] then
      match t
      case Leaf(f) => if f.Output() == x then Stored else Broken(TwoLeaves(x, f.Output()))
      case Branch(l, r, _, _) => Broken(LeafAndNode(x, TrieHash(h, l), TrieHash(h, r)))
    else
      var below := Fold(h, steps[1..], h.leaf(x));
      var (a, b) := if steps[0].kind.LeftEntry? then (steps[0].hash, below) else (below, steps[0].hash);
      match t
      case Leaf(f) => Broken(LeafAndNode(f.Output(), a, b))
      case Branch(l, r, _, _) =>
        if (a, b) != (TrieHash(h, l), TrieHash(h, r)) then Broken(TwoNodes(a, b, TrieHash(h, l), TrieHash(h, r)))
        else Trace(h, if steps[0].kind.LeftEntry? then r else l, steps[1..], x)
  }

  /** The output that a collision has of the trie or of the claim. */
  ghost predicate Concerns(c: Collision, t: Trie, x: Txo) {
    c.LeafAndNode? ==> c.x == x || Holds(t, c.x)
  }

  lemma {:induction false} TraceIsHonest(h: Hasher, t: Trie, steps: seq<Entry>, x: Txo)
    requires AllSiblings(steps)
    requires t.Valid() && Fold(h, steps, h.leaf(x)) == TrieHash(h, t)
    ensures match Trace(h, t, steps, x)
      case Stored => Holds(t, x)
      case Broken(c) => c.Genuine(h) && Concerns(c, t, x)
    decreases t
  {
    if steps != [] && t.Branch? {
      var below := Fold(h, steps[1..], h.leaf(x));
      var child := if steps[0].kind.LeftEntry? then t.right else t.left;
      if below == TrieHash(h, child) {
        TraceIsHonest(h, child, steps[1..], x);
        ChildrenAreDisjoint(t, x.key);
        var v := Trace(h, child, steps[1..], x);
        if v.Broken? && v.collision.LeafAndNode? {
          ChildrenAreDisjoint(t, v.collision.x.key);
        }
      }
    }
  }

  /** The directions that siblings lie opposite to. */
  function PathOf(steps: seq<Entry>): (path: Path)
    ensures |path| == |steps|
  {
    seq(|steps|, i requires 0 <= i < |steps| => steps[i].kind == RightEntry)
  }

  /** A trace that succeeds starts with the hash of the trie's other child. */
  lemma TraceStep(h: Hasher, t: Trie, steps: seq<Entry>, x: Txo)
    requires AllSiblings(steps) && steps != [] && Trace(h, t, steps, x) == Stored
    ensures t.Branch?
    ensures steps[0].kind.LeftEntry? ==> steps[0] == Entry(LeftEntry, TrieHash(h, t.left)) && Trace(h, t.right, steps[1..], x) == Stored
    ensures steps[0].kind.RightEntry? ==> steps[0] == Entry(RightEntry, TrieHash(h, t.right)) && Trace(h, t.left, steps[1..], x) == Stored
  {
  }

  lemma PathOfTail(steps: seq<Entry>)
    requires steps != []
    ensures PathOf(steps)[0] == steps[0].kind.RightEntry? && PathOf(steps)[1..] == PathOf(steps[1..])
  {
  }

  /** Siblings that lead to a stored output are those of the path to it. */
  lemma {:induction false} TracedAreSiblings(h: Hasher, t: Trie, steps: seq<Entry>, x: Txo)
    requires AllSiblings(steps) && Trace(h, t, steps, x) == Stored
    ensures ToLeaf(t, PathOf(steps)) && steps == Siblings(h, t, PathOf(steps))
    ensures var s := SubtrieAt(t, PathOf(steps)); s.Leaf? && s.elem.Output() == x
    decreases t
  {
    if steps != [] {
      TraceStep(h, t, steps, x);
      PathOfTail(steps);
      assert steps[0] in steps;
      TracedAreSiblings(h, if steps[0].kind.LeftEntry? then t.right else t.left, steps[1..], x);
      assert steps == [steps[0]] + steps[1..];
    }
  }

  /** And the siblings of a path lead to the output at its end. */
  lemma {:induction false} SiblingsAreTraced(h: Hasher, t: Trie, path: Path)
    requires ToLeaf(t, path)
    ensures SubtrieAt(t, path).Leaf? && AllSiblings(Siblings(h, t, path))
    ensures var x := SubtrieAt(t, path).elem.Output();
      && Trace(h, t, Siblings(h, t, path), x) == Stored
      && Fold(h, Siblings(h, t, path), h.leaf(x)) == TrieHash(h, t)
  {
    if t.Branch? {
      var child := if path[0] then t.left else t.right;
      SiblingsAreTraced(h, child, path[1..]);
      assert Siblings(h, t, path)[1..] == Siblings(h, child, path[1..]);
    }
  }

  /** Where the climb from index n stops: only the entries from there to n are hashed. */
  function ClimbStart(b: seq<Entry>, n: nat): (m: nat)
    requires n <= |b|
    ensures m <= n
    ensures AllSiblings(b[m..n])
  {
    if n > 0 && (b[n - 1].kind.LeftEntry? || b[n - 1].kind.RightEntry?) then
      var m := ClimbStart(b, n - 1);
      assert b[m..n] == b[m..n - 1] + [b[n - 1]];
      m
    else n
  }

  /** The hash one sibling up. */
  function Up(h: Hasher, s: Entry, hash: Hash): Hash {
    if s.kind.LeftEntry? then h.node(s.hash, hash) else h.node(hash, s.hash)
  }

  lemma {:induction false} FoldFromBelow(h: Hasher, steps: seq<Entry>, s: Entry, hash: Hash)
    requires AllSiblings(steps)
    requires s.kind.LeftEntry? || s.kind.RightEntry?
    ensures Fold(h, steps + [s], hash)
      == Fold(h, steps, Up(h, s, hash))
  {
    if steps == [] {
      assert [s][1..] == [];
    } else {
      FoldFromBelow(h, steps[1..], s, hash);
      assert (steps + [s])[1..] == steps[1..] + [s];
    }
  }

  lemma ClimbGrows(b: seq<Entry>, n: nat)
    requires 0 < n <= |b| && (b[n - 1].kind.LeftEntry? || b[n - 1].kind.RightEntry?)
    ensures b[ClimbStart(b, n)..n] == b[ClimbStart(b, n - 1)..n - 1] + [b[n - 1]]
  {
  }

  lemma {:induction false} ClimbIsFold(h: Hasher, b: seq<Entry>, n: nat, hash: Hash)
    requires n <= |b|
    ensures Climb(h, b, n, hash) == Fold(h, b[ClimbStart(b, n)..n], hash)
  {
    if n > 0 && (b[n - 1].kind.LeftEntry? || b[n - 1].kind.RightEntry?) {
      var s := b[n - 1];
      ClimbIsFold(h, b, n - 1, Up(h, s, hash));
      ClimbGrows(b, n);
      FoldFromBelow(h, b[ClimbStart(b, n - 1)..n - 1], s, hash);
    } else {
      assert b[ClimbStart(b, n)..n] == [];
    }
  }

  /** The siblings that a branch's climb hashes. */
  function Climbed(b: seq<Entry>): (steps: seq<Entry>)
    requires b != []
    ensures AllSiblings(steps)
  {
    b[ClimbStart(b, |b| - 1)..|b| - 1]
  }

  /** What lies before them, and is not looked at but for its first hash. */
  function Head(b: seq<Entry>): seq<Entry>
    requires b != []
  {
    b[..ClimbStart(b, |b| - 1)]
  }

  /** The verdict on an arbitrary branch that claims x for the trie. */
  function Judge(h: Hasher, t: Trie, b: seq<Entry>, x: Txo): Verdict
    requires b != []
  {
    Trace(h, t, Climbed(b), x)
  }

  /** A branch that vouches for an output against a trie's root hash. */
  predicate VouchesIn(h: Hasher, t: Trie, b: seq<Entry>, x: Txo) {
    b != [] && b[0].hash == TrieHash(h, t) && Vouches(h, b, h.leaf(x))
  }

  /** Soundness: if any branch at all, however made, vouches for x against the trie's root hash, then
      x is stored, or Judge computes a collision of the hash functions from the branch. */
  lemma MembershipSound(h: Hasher, t: Trie, b: seq<Entry>, x: Txo)
    requires t.Valid() && VouchesIn(h, t, b, x)
    ensures match Judge(h, t, b, x)
      case Stored => Holds(t, x)
      case Broken(c) => c.Genuine(h) && Concerns(c, t, x)
  {
    ClimbIsFold(h, b, |b| - 1, h.leaf(x));
    TraceIsHonest(h, t, Climbed(b), x);
  }

  lemma InThreeParts(b: seq<Entry>)
    requires b != []
    ensures b == Head(b) + (Climbed(b) + [b[|b| - 1]])
  {
  }

  /** A branch that vouches without a collision is the branch of a leaf, but for what lies before its
      siblings and the kind of its last entry. */
  lemma VouchedIsBranch(h: Hasher, t: Trie, b: seq<Entry>, x: Txo)
    requires t.Valid() && VouchesIn(h, t, b, x) && Judge(h, t, b, x) == Stored
    ensures ToLeaf(t, PathOf(Climbed(b)))
    ensures var s := SubtrieAt(t, PathOf(Climbed(b))); s.Leaf? && s.elem.Output() == x
    ensures b[|b| - 1].kind == LeafEntry ==> b == Head(b) + SiblingsAndLeaf(h, t, PathOf(Climbed(b)))
  {
    TracedAreSiblings(h, t, Climbed(b), x);
    InThreeParts(b);
  }

  lemma {:induction false} ClimbStartsAtStop(b: seq<Entry>, m: nat, n: nat)
    requires m <= n <= |b| && AllSiblings(b[m..n]) && Stops(b[..m])
    ensures ClimbStart(b, n) == m
    decreases n - m
  {
    if m < n {
      assert b[n - 1] in b[m..n] && b[m..n - 1] == b[m..n][..n - 1 - m];
      ClimbStartsAtStop(b, m, n - 1);
    }
  }

  /** What a branch's climb takes from it. */
  lemma HeadAndSteps(head: seq<Entry>, steps: seq<Entry>, last: Entry)
    requires Stops(head) && AllSiblings(steps)
    ensures var b := head + (steps + [last]); Head(b) == head && Climbed(b) == steps
  {
    var b, m, n := head + (steps + [last]), |head|, |head| + |steps|;
    assert b[..m] == head && b[m..n] == steps;
    ClimbStartsAtStop(b, m, n);
  }

  lemma ClimbOverSteps(h: Hasher, head: seq<Entry>, steps: seq<Entry>, last: Entry)
    requires Stops(head) && head != [] && AllSiblings(steps) && Fold(h, steps, last.hash) == head[0].hash
    ensures var b := head + (steps + [last]); Head(b) == head && Climbed(b) == steps && Vouches(h, b, last.hash)
  {
    HeadAndSteps(head, steps, last);
    ClimbIsFold(h, head + (steps + [last]), |head| + |steps|, last.hash);
  }

  // ------------------------------------------------------------------ completeness

  /** Completeness: the branch of every leaf vouches for the leaf's output, and is judged to. */
  lemma BranchVouches(h: Hasher, t: Trie, path: Path)
    requires ToLeaf(t, path)
    ensures SubtrieAt(t, path).Leaf?
    ensures var (b, x) := (BranchOf(h, t, path), SubtrieAt(t, path).elem.Output());
      VouchesIn(h, t, b, x) && Judge(h, t, b, x) == Stored && Climbed(b) == Siblings(h, t, path)
  {
    var head, steps, last := [Entry(RootEntry, TrieHash(h, t))], Siblings(h, t, path), Entry(LeafEntry, TrieHash(h, SubtrieAt(t, path)));
    SiblingsAreTraced(h, t, path);
    ClimbOverSteps(h, head, steps, last);
  }

  /** Every stored element has a branch that vouches for it against the root hash. */
  lemma MembershipComplete(h: Hasher, root: Root, k: Key)
    requires root.Valid() && k in root.Contents()
    ensures Find(root, k).Found? && Find(root, k).path != []
    ensures var b := BranchOf(h, root.trie, Find(root, k).path[1..]);
      VouchesIn(h, root.trie, b, root.Contents()[k].Output()) && Judge(h, root.trie, b, root.Contents()[k].Output()) == Stored
  {
    FindDecides(root, k);
    FoundAtLeaf(root.trie, k);
    assert Find(root, k).path[1..] == FindFrom(root.trie, k).path;
    BranchVouches(h, root.trie, FindFrom(root.trie, k).path);
  }
}

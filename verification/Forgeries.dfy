/** The test for neighbours on branches that come from somebody else, for any hash functions. */
module Forgeries {
  import opened Keys
  import opened Tries
  import opened Canonical
  import opened Proofs
  import opened Absence

  // ------------------------------------------------------------------ the test and what precedes the siblings

  lemma {:induction false} SharedSkipsHeads(head: seq<Entry>, a: seq<Entry>, b: seq<Entry>)
    ensures Shared(head + a, head + b) == |head| + Shared(a, b)
  {
    if head == [] {
      assert head + a == a && head + b == b;
    } else {
      SharedSkipsHeads(head[1..], a, b);
      assert head + a == [head[0]] + (head[1..] + a) && head + b == [head[0]] + (head[1..] + b);
      SharedSkipsHead(head[0], head[1..] + a, head[1..] + b);
    }
  }

  lemma {:induction false} ScanSkipsHead(head: seq<Entry>, a: seq<Entry>, j: nat, limit: nat, kind: Kind)
    ensures AllUntilLeaf(head + a, |head| + j, |head| + limit, kind) == AllUntilLeaf(a, j, limit, kind)
    decreases limit - j
  {
    if j < limit && j < |a| {
      assert (head + a)[|head| + j] == a[j];
      ScanSkipsHead(head, a, j + 1, limit, kind);
    }
  }

  /** What two branches have in common at their beginning does not matter. */
  lemma {:induction false} TestSkipsHead(head: seq<Entry>, a: seq<Entry>, b: seq<Entry>)
    ensures ConsecutiveAsCoded(head + a, head + b) <==> ConsecutiveAsCoded(a, b)
    ensures ConsecutiveInFull(head + a, head + b) <==> ConsecutiveInFull(a, b)
  {
    var n, i := |head|, Shared(a, b);
    SharedSkipsHeads(head, a, b);
    ScanSkipsHead(head, a, i + 1, |a|, RightEntry);
    ScanSkipsHead(head, b, i + 1, |a|, LeftEntry);
    ScanSkipsHead(head, b, i + 1, |b|, LeftEntry);
    assert i < |a| ==> (head + a)[n + i] == a[i];
    assert i < |b| ==> (head + b)[n + i] == b[i];
  }

  lemma {:induction false} RestSkipsHead(head: seq<Entry>, a: seq<Entry>, b: seq<Entry>)
    ensures AllUntilLeaf(head + b, |head + a|, |head + b|, LeftEntry) <==> AllUntilLeaf(b, |a|, |b|, LeftEntry)
  {
    var m, n, i, j := |head + a|, |head + b|, |a|, |b|;
    assert m == |head| + i && n == |head| + j;
    ScanSkipsHead(head, b, i, j, LeftEntry);
  }

  lemma {:induction false} SameHeadsAsBranches(h: Hasher, t: Trie, head: seq<Entry>, p: Path, q: Path)
    ensures var (a, b, c, d) := (head + SiblingsAndLeaf(h, t, p), head + SiblingsAndLeaf(h, t, q), BranchOf(h, t, p), BranchOf(h, t, q));
      && (ConsecutiveInFull(a, b) <==> ConsecutiveInFull(c, d))
      && (ConsecutiveAsCoded(a, b) <==> ConsecutiveAsCoded(c, d))
      && (AllUntilLeaf(b, |a|, |b|, LeftEntry) <==> AllUntilLeaf(d, |c|, |d|, LeftEntry))
  {
    var s, u, root := SiblingsAndLeaf(h, t, p), SiblingsAndLeaf(h, t, q), [Entry(RootEntry, TrieHash(h, t))];
    TestSkipsHead(head, s, u);
    TestSkipsHead(root, s, u);
    RestSkipsHead(head, s, u);
    RestSkipsHead(root, s, u);
  }

  // ------------------------------------------------------------------ branches that vouch

  predicate EndsInLeaf(b: seq<Entry>) {
    b != [] && b[|b| - 1].kind == LeafEntry
  }

  /** Two branches, however made, that vouch for two outputs, end in leaf entries and have nothing
      different before their siblings: the full test decides whether the two are neighbours in the
      trie, or Judge computes two inputs with one hash from one of them. */
  lemma VouchedNeighbours(h: Hasher, t: Trie, a: seq<Entry>, b: seq<Entry>, x: Txo, y: Txo)
    requires t.Valid() && VouchesIn(h, t, a, x) && VouchesIn(h, t, b, y)
    requires EndsInLeaf(a) && EndsInLeaf(b) && Head(a) == Head(b)
    ensures match (Judge(h, t, a, x), Judge(h, t, b, y))
      case (Stored, Stored) => Holds(t, x) && Holds(t, y) && (ConsecutiveInFull(a, b) <==> Adjacent(t, x.key, y.key))
      case (Broken(c), _) => c.Genuine(h)
      case (_, Broken(c)) => c.Genuine(h)
  {
    MembershipSound(h, t, a, x);
    MembershipSound(h, t, b, y);
    if Judge(h, t, a, x) == Stored && Judge(h, t, b, y) == Stored {
      StoredNeighbours(h, t, a, b, x, y);
    }
  }

  /** The same for the test as it is coded: it never turns neighbours away, and lets others pass
      exactly where the entries of the upper branch beyond the length of the lower one do not all go right. */
  lemma StoredNeighbours(h: Hasher, t: Trie, a: seq<Entry>, b: seq<Entry>, x: Txo, y: Txo)
    requires t.Valid() && VouchesIn(h, t, a, x) && VouchesIn(h, t, b, y)
    requires EndsInLeaf(a) && EndsInLeaf(b) && Head(a) == Head(b)
    requires Judge(h, t, a, x) == Stored && Judge(h, t, b, y) == Stored
    ensures ConsecutiveInFull(a, b) <==> Adjacent(t, x.key, y.key)
    ensures Adjacent(t, x.key, y.key) ==> ConsecutiveAsCoded(a, b)
    ensures ConsecutiveAsCoded(a, b) ==> (Adjacent(t, x.key, y.key) <==> AllUntilLeaf(b, |a|, |b|, LeftEntry))
  {
    var p, q := PathOf(Climbed(a)), PathOf(Climbed(b));
    VouchedIsBranch(h, t, a, x);
    VouchedIsBranch(h, t, b, y);
    SameHeadsAsBranches(h, t, Head(a), p, q);
    FullTestIsAdjacency(h, t, p, q);
    CodedTestAndAdjacency(h, t, p, q);
  }

  /** The shape of an honest branch, which anybody can check. */
  predicate WellShaped(b: seq<Entry>) {
    |b| >= 2 && b[0].kind == RootEntry && EndsInLeaf(b) && AllSiblings(b[1..|b| - 1])
  }

  lemma WellShapedHead(b: seq<Entry>)
    requires WellShaped(b)
    ensures Head(b) == [b[0]]
  {
    var n := |b| - 1;
    HeadAndSteps([b[0]], b[1..n], b[n]);
    assert b == [b[0]] + (b[1..n] + [b[n]]);
  }

  /** Branches of the right shape are such branches. */
  lemma WellShapedNeighbours(h: Hasher, t: Trie, a: seq<Entry>, b: seq<Entry>, x: Txo, y: Txo)
    requires t.Valid() && VouchesIn(h, t, a, x) && VouchesIn(h, t, b, y) && WellShaped(a) && WellShaped(b)
    ensures match (Judge(h, t, a, x), Judge(h, t, b, y))
      case (Stored, Stored) => Holds(t, x) && Holds(t, y) && (ConsecutiveInFull(a, b) <==> Adjacent(t, x.key, y.key))
      case (Broken(c), _) => c.Genuine(h)
      case (_, Broken(c)) => c.Genuine(h)
  {
    WellShapedHead(a);
    WellShapedHead(b);
    assert a[0] == b[0];
    VouchedNeighbours(h, t, a, b, x, y);
  }

  // ------------------------------------------------------------------ branches with something else in front

  /** The siblings of a leaf vouch for it behind any entries at which the climb stops. */
  lemma AnyHeadVouches(h: Hasher, t: Trie, head: seq<Entry>, p: Path)
    requires ToLeaf(t, p) && Stops(head) && head != [] && head[0].hash == TrieHash(h, t)
    ensures SubtrieAt(t, p).Leaf?
    ensures var (b, x) := (head + SiblingsAndLeaf(h, t, p), SubtrieAt(t, p).elem.Output());
      VouchesIn(h, t, b, x) && Judge(h, t, b, x) == Stored && Head(b) == head && EndsInLeaf(b)
  {
    var s, last := Siblings(h, t, p), Entry(LeafEntry, TrieHash(h, SubtrieAt(t, p)));
    SiblingsAreTraced(h, t, p);
    ClimbOverSteps(h, head, s, last);
  }

  function ForgedHead(kind: Kind, root: Hash): seq<Entry> {
    [Entry(kind, root), Entry(LeafEntry, NO_HASH), Entry(RootEntry, NO_HASH)]
  }

  /** Without the shape the test is worth nothing: any two leaves, in any order and with any number of
      keys between them, have branches that vouch for them and pass even the full test. */
  lemma ForgedPairPasses(h: Hasher, t: Trie, p: Path, q: Path)
    requires ToLeaf(t, p) && ToLeaf(t, q)
    ensures SubtrieAt(t, p).Leaf? && SubtrieAt(t, q).Leaf?
    ensures var (a, b) := (ForgedHead(LeftEntry, TrieHash(h, t)) + SiblingsAndLeaf(h, t, p), ForgedHead(RightEntry, TrieHash(h, t)) + SiblingsAndLeaf(h, t, q));
      && VouchesIn(h, t, a, SubtrieAt(t, p).elem.Output()) && VouchesIn(h, t, b, SubtrieAt(t, q).elem.Output())
      && EndsInLeaf(a) && EndsInLeaf(b) && ConsecutiveInFull(a, b)
  {
    var f, g := ForgedHead(LeftEntry, TrieHash(h, t)), ForgedHead(RightEntry, TrieHash(h, t));
    AnyHeadVouches(h, t, f, p);
    AnyHeadVouches(h, t, g, q);
    var a, b := f + SiblingsAndLeaf(h, t, p), g + SiblingsAndLeaf(h, t, q);
    assert a[0] == f[0] && b[0] == g[0] && a[1] == f[1] && b[1] == g[1];
  }

  // ------------------------------------------------------------------ exactly when the heads do no harm

  lemma {:induction false} ScanIsMonotone(b: seq<Entry>, j: nat, limit: nat, kind: Kind)
    requires AllUntilLeaf(b, j, |b|, kind)
    ensures AllUntilLeaf(b, j, limit, kind)
    decreases |b| - j
  {
    if j < |b| && b[j].kind != LeafEntry {
      ScanIsMonotone(b, j + 1, limit, kind);
    }
  }

  /** The full test, with both of its scans in one place. */
  predicate PartsAt(lower: seq<Entry>, upper: seq<Entry>, i: nat) {
    && i < |lower| && i < |upper|
    && lower[i].kind == LeftEntry && AllUntilLeaf(lower, i + 1, |lower|, RightEntry)
    && upper[i].kind == RightEntry && AllUntilLeaf(upper, i + 1, |upper|, LeftEntry)
  }

  lemma FullTestParts(lower: seq<Entry>, upper: seq<Entry>)
    ensures ConsecutiveInFull(lower, upper) <==> PartsAt(lower, upper, Shared(lower, upper))
  {
    var i := Shared(lower, upper);
    if PartsAt(lower, upper, i) {
      ScanIsMonotone(upper, i + 1, |lower|, LeftEntry);
    }
  }

  /** A scan that starts in a head ends in it. */
  lemma {:induction false} ScanStaysInHead(head: seq<Entry>, tail: seq<Entry>, j: nat, kind: Kind)
    requires Stops(head) && j < |head| && (kind == LeftEntry || kind == RightEntry)
    ensures AllUntilLeaf(head + tail, j, |head + tail|, kind) == AllUntilLeaf(head, j, |head|, kind)
    decreases |head| - j
  {
    assert (head + tail)[j] == head[j];
    if j + 1 < |head| {
      ScanStaysInHead(head, tail, j + 1, kind);
    }
  }

  /** Branches that differ within the first b entries of one of them share no more with the rest of it. */
  lemma {:induction false} SharedWithin(a: seq<Entry>, b: seq<Entry>, tail: seq<Entry>)
    ensures Shared(a, b) < |b| || Shared(a, b) == |a| ==> Shared(a, b + tail) == Shared(a, b) == Shared(b + tail, a)
    ensures Shared(a, b) == Shared(b, a)
  {
    if a != [] && b != [] && a[0] == b[0] {
      SharedWithin(a[1..], b[1..], tail);
      assert (b + tail)[1..] == b[1..] + tail;
    }
  }

  lemma {:induction false} SharedIsSame(a: seq<Entry>, b: seq<Entry>)
    ensures a[..Shared(a, b)] == b[..Shared(a, b)]
  {
    if a != [] && b != [] && a[0] == b[0] {
      var n := Shared(a[1..], b[1..]);
      SharedIsSame(a[1..], b[1..]);
      assert a[..1 + n] == [a[0]] + a[1..][..n] && b[..1 + n] == [b[0]] + b[1..][..n];
    }
  }

  lemma BehindHead(head: seq<Entry>, steps: seq<Entry>, last: Entry, n: nat)
    requires AllSiblings(steps)
    ensures var b := head + (steps + [last]);
      && (n == |head| ==> b[..n] == head)
      && (|head| < n < |b| ==> b[n - 1].kind.LeftEntry? || b[n - 1].kind.RightEntry?)
  {
    if |head| < n <= |head| + |steps| {
      assert (head + (steps + [last]))[n - 1] == steps[n - 1 - |head|];
      assert steps[n - 1 - |head|] in steps;
    }
  }

  /** A longer, different head is not the beginning of a shorter head followed by siblings and a leaf. */
  lemma HeadIsNotShared(short: seq<Entry>, steps: seq<Entry>, last: Entry, long: seq<Entry>)
    requires AllSiblings(steps) && Stops(long) && |short| <= |long| && short != long
    ensures var b := short + (steps + [last]); Shared(b, long) < |long| || Shared(b, long) == |b|
  {
    var b := short + (steps + [last]);
    var n := Shared(b, long);
    SharedIsSame(b, long);
    assert n > 0 ==> b[..n][n - 1] == b[n - 1] && long[..n][n - 1] == long[n - 1];
    BehindHead(short, steps, last, n);
    assert n == |long| ==> long == long[..n];
  }

  /** Where a scan starts in a head, what follows the head does not matter. */
  lemma InsideHead(head: seq<Entry>, tail: seq<Entry>, i: nat, first: Kind, rest: Kind)
    requires Stops(head) && i < |head| && (first == LeftEntry || first == RightEntry) && (rest == LeftEntry || rest == RightEntry)
    ensures (head + tail)[i].kind == first && AllUntilLeaf(head + tail, i + 1, |head + tail|, rest)
      <==> head[i].kind == first && AllUntilLeaf(head, i + 1, |head|, rest)
  {
    assert (head + tail)[i] == head[i];
    if i + 1 < |head| {
      ScanStaysInHead(head, tail, i + 1, rest);
    }
  }

  lemma PartsUpper(b: seq<Entry>, long: seq<Entry>, tail: seq<Entry>, i: nat)
    requires Stops(long) && i < |long|
    ensures PartsAt(b, long + tail, i) <==> PartsAt(b, long, i)
  {
    InsideHead(long, tail, i, RightEntry, LeftEntry);
  }

  lemma PartsLower(b: seq<Entry>, long: seq<Entry>, tail: seq<Entry>, i: nat)
    requires Stops(long) && i < |long|
    ensures PartsAt(long + tail, b, i) <==> PartsAt(long, b, i)
  {
    InsideHead(long, tail, i, LeftEntry, RightEntry);
  }

  /** Behind a longer, different head it does not matter to the test what follows. */
  lemma UpperTailIgnored(short: seq<Entry>, steps: seq<Entry>, last: Entry, long: seq<Entry>, tail: seq<Entry>, b: seq<Entry>)
    requires AllSiblings(steps) && Stops(long) && |short| <= |long| && short != long && b == short + (steps + [last])
    ensures ConsecutiveInFull(b, long + tail) <==> PartsAt(b, long, Shared(b, long))
  {
    var i := Shared(b, long);
    HeadIsNotShared(short, steps, last, long);
    SharedWithin(b, long, tail);
    FullTestParts(b, long + tail);
    if i < |long| {
      PartsUpper(b, long, tail, i);
    }
  }

  lemma LowerTailIgnored(short: seq<Entry>, steps: seq<Entry>, last: Entry, long: seq<Entry>, tail: seq<Entry>, b: seq<Entry>)
    requires AllSiblings(steps) && Stops(long) && |short| <= |long| && short != long && b == short + (steps + [last])
    ensures ConsecutiveInFull(long + tail, b) <==> PartsAt(long, b, Shared(b, long))
  {
    var i := Shared(b, long);
    HeadIsNotShared(short, steps, last, long);
    SharedWithin(b, long, tail);
    FullTestParts(long + tail, b);
    if i < |long| {
      PartsLower(b, long, tail, i);
    }
  }

  /** The two leaves on either side of a branch's middle. */
  lemma MiddleLeaves(t: Trie) returns (p: Path, q: Path)
    requires t.Branch? && t.Valid()
    ensures ToLeaf(t, p) && ToLeaf(t, q) && Adjacent(t, KeyAt(t, p), KeyAt(t, q))
  {
    p, q := [false] + AlwaysOneWay(t.right, true), [true] + AlwaysOneWay(t.left, false);
    OneWayEnds(t.right, true);
    OneWayEnds(t.left, false);
    assert p[1..] == AlwaysOneWay(t.right, true) && q[1..] == AlwaysOneWay(t.left, false);
    EndsAreExtreme(t.right, 0);
    EndsAreExtreme(t.left, 0);
    AdjacentAcross(t, KeyAt(t, p), KeyAt(t, q));
  }

  /** The full test decides adjacency on the leaves of t behind these two heads. */
  ghost predicate DecidesBehind(h: Hasher, t: Trie, lower: seq<Entry>, upper: seq<Entry>) {
    forall p, q | ToLeaf(t, p) && ToLeaf(t, q) ::
      ConsecutiveInFull(lower + SiblingsAndLeaf(h, t, p), upper + SiblingsAndLeaf(h, t, q)) <==> Adjacent(t, KeyAt(t, p), KeyAt(t, q))
  }

  /** In a trie of more than one element, the test decides adjacency on its leaves exactly when the two
      branches have the same before their siblings. */
  lemma HeadsDecide(h: Hasher, t: Trie, lower: seq<Entry>, upper: seq<Entry>)
    requires t.Branch? && t.Valid() && Stops(lower) && Stops(upper)
    ensures DecidesBehind(h, t, lower, upper) <==> lower == upper
  {
    if lower == upper {
      forall p, q | ToLeaf(t, p) && ToLeaf(t, q)
        ensures ConsecutiveInFull(lower + SiblingsAndLeaf(h, t, p), upper + SiblingsAndLeaf(h, t, q)) <==> Adjacent(t, KeyAt(t, p), KeyAt(t, q))
      {
        SameHeadsAsBranches(h, t, lower, p, q);
        FullTestIsAdjacency(h, t, p, q);
      }
    } else {
      var p, q := MiddleLeaves(t);
      DifferentHeadsMislead(h, t, lower, upper, p, q);
    }
  }

  /** Behind different heads the test does not tell a leaf's neighbour from the leaf itself. */
  lemma DifferentHeadsMislead(h: Hasher, t: Trie, lower: seq<Entry>, upper: seq<Entry>, p: Path, q: Path)
    requires ToLeaf(t, p) && ToLeaf(t, q) && Stops(lower) && Stops(upper) && lower != upper
    ensures var (s, u) := (SiblingsAndLeaf(h, t, p), SiblingsAndLeaf(h, t, q));
      || (ConsecutiveInFull(lower + s, upper + u) <==> ConsecutiveInFull(lower + s, upper + s))
      || (ConsecutiveInFull(lower + s, upper + u) <==> ConsecutiveInFull(lower + u, upper + u))
  {
    var s, u := SiblingsAndLeaf(h, t, p), SiblingsAndLeaf(h, t, q);
    SiblingsAreTraced(h, t, p);
    SiblingsAreTraced(h, t, q);
    if |lower| <= |upper| {
      var last := Entry(LeafEntry, TrieHash(h, SubtrieAt(t, p)));
      UpperTailIgnored(lower, Siblings(h, t, p), last, upper, u, lower + s);
      UpperTailIgnored(lower, Siblings(h, t, p), last, upper, s, lower + s);
    } else {
      var last := Entry(LeafEntry, TrieHash(h, SubtrieAt(t, q)));
      LowerTailIgnored(upper, Siblings(h, t, q), last, lower, s, upper + u);
      LowerTailIgnored(upper, Siblings(h, t, q), last, lower, u, upper + u);
    }
  }
}

/** The test for neighbours on branches from somebody else, under the hash that is used. */
module Deceptions {
  import opened Absence
  import opened Bytes
  import opened Canonical
  import opened Forgeries
  import opened Keys
  import opened Octets
  import opened Preimages
  import opened Proofs
  import opened Serial
  import opened Tries

  /** A branch vouches, and no collision of the digest was needed for it. */
  predicate CleanlyVouched(digest: seq<byte> -> Hash, t: Trie, b: seq<Entry>, x: Txo) {
    VouchesIn(Hashing(digest), t, b, x) && Clean(digest, Judge(Hashing(digest), t, b, x))
  }

  /** What both forms of the test are to tell about two keys: the full one whether they are neighbours,
      the coded one the same but for the entries of the upper branch that it leaves out. */
  ghost predicate Decides(t: Trie, a: seq<Entry>, b: seq<Entry>, x: Key, y: Key) {
    && (ConsecutiveInFull(a, b) <==> Adjacent(t, x, y))
    && (Adjacent(t, x, y) ==> ConsecutiveAsCoded(a, b))
    && (ConsecutiveAsCoded(a, b) ==> (Adjacent(t, x, y) <==> AllUntilLeaf(b, |a|, |b|, LeftEntry)))
  }

  /** Two branches that end in leaf entries and have the same in front of their siblings. */
  predicate Comparable(a: seq<Entry>, b: seq<Entry>) {
    EndsInLeaf(a) && EndsInLeaf(b) && Head(a) == Head(b)
  }

  lemma WellShapedCompare(h: Hasher, t: Trie, a: seq<Entry>, b: seq<Entry>, x: Txo, y: Txo)
    requires WellShaped(a) && WellShaped(b) && VouchesIn(h, t, a, x) && VouchesIn(h, t, b, y)
    ensures Comparable(a, b)
  {
    WellShapedHead(a);
    WellShapedHead(b);
    assert a[0] == b[0];
  }

  /** Everything that is stored, x and y have scripts of these lengths. */
  ghost predicate Lengths(t: Trie, x: Txo, y: Txo, lengths: set<nat>) {
    LengthsIn(t, lengths) && |x.script| in lengths && |y.script| in lengths
  }

  /** Where no script has 19 bytes the tests can be trusted on any two such branches. */
  lemma VouchedDecides(digest: seq<byte> -> Hash, t: Trie, a: seq<Entry>, b: seq<Entry>, x: Txo, y: Txo, lengths: set<nat>)
    requires t.Valid() && Lengths(t, x, y, lengths) && 19 !in lengths
    requires CleanlyVouched(digest, t, a, x) && CleanlyVouched(digest, t, b, y) && Comparable(a, b)
    ensures Holds(t, x) && Holds(t, y) && Decides(t, a, b, x.key, y.key)
  {
    VouchedIsStored(digest, t, a, x, lengths);
    VouchedIsStored(digest, t, b, y, lengths);
    StoredNeighbours(Hashing(digest), t, a, b, x, y);
  }

  /** Two branches that vouch, in a trie with scripts of these lengths. */
  ghost predicate Offered(digest: seq<byte> -> Hash, t: Trie, a: seq<Entry>, b: seq<Entry>, x: Txo, y: Txo, lengths: set<nat>) {
    t.Valid() && Lengths(t, x, y, lengths) && CleanlyVouched(digest, t, a, x) && CleanlyVouched(digest, t, b, y)
  }

  // ------------------------------------------------------------------ a stored key made to look absent

  /** z above the disguise of x. */
  function Above(digest: seq<byte> -> Hash, x: Txo, z: Txo): (t: Trie)
    ensures t.Branch?
  {
    var y := Disguise(digest, x);
    Branch(LeafOf(z), LeafOf(y), y.key, Top(z.key, y.key))
  }

  /** The second half of the disguise, as if it were the hash of a sibling. */
  function OtherHalf(digest: seq<byte> -> Hash, x: Txo): (r: Hash)
    ensures digest(Serialized(x)) + r == Serialized(Disguise(digest, x))
  {
    DisguiseIsPair(digest, x);
    Serialized(Disguise(digest, x))[HASH_BYTES..]
  }

  /** The siblings that lead past the disguise to x, and those that lead to z. */
  function LowerSteps(digest: seq<byte> -> Hash, x: Txo, z: Txo): seq<Entry> {
    [Entry(LeftEntry, digest(Serialized(z))), Entry(RightEntry, OtherHalf(digest, x))]
  }

  function UpperSteps(digest: seq<byte> -> Hash, x: Txo): seq<Entry> {
    [Entry(RightEntry, digest(Serialized(Disguise(digest, x))))]
  }

  function Shaped(root: Hash, steps: seq<Entry>, leaf: Hash): (b: seq<Entry>)
    ensures AllSiblings(steps) ==> WellShaped(b)
  {
    var b := [Entry(RootEntry, root)] + (steps + [Entry(LeafEntry, leaf)]);
    assert b[1..|b| - 1] == steps;
    b
  }

  function LowerBranch(digest: seq<byte> -> Hash, x: Txo, z: Txo): seq<Entry> {
    Shaped(TrieHash(Hashing(digest), Above(digest, x, z)), LowerSteps(digest, x, z), digest(Serialized(x)))
  }

  function UpperBranch(digest: seq<byte> -> Hash, x: Txo, z: Txo): seq<Entry> {
    Shaped(TrieHash(Hashing(digest), Above(digest, x, z)), UpperSteps(digest, x), digest(Serialized(z)))
  }

  lemma AboveIsValid(digest: seq<byte> -> Hash, x: Txo, z: Txo)
    requires z.key > Disguise(digest, x).key
    ensures var (t, y) := (Above(digest, x, z), Disguise(digest, x));
      && t.Valid() && t.Contents().Keys == {z.key, y.key} && LengthsIn(t, {19, |z.script|})
      && Holds(t, y) && Holds(t, z) && (x != z ==> !Holds(t, x))
  {
    var t, y := Above(digest, x, z), Disguise(digest, x);
    TwoLeaves(z.key, y.key, t);
  }

  lemma TwoLeaves(z: Key, y: Key, t: Trie)
    requires z > y && t.Branch? && t.left.Leaf? && t.right.Leaf? && t.left.Key() == z && t.right.Key() == y && t.key == y && t.depth == Top(z, y)
    ensures t.Valid() && t.Contents() == map[z := t.left.elem, y := t.right.elem]
  {
    assert t.left.Contents() == map[z := t.left.elem] && t.right.Contents() == map[y := t.right.elem];
  }

  /** A shaped branch is judged by its siblings. */
  lemma ShapedVouches(h: Hasher, t: Trie, steps: seq<Entry>, x: Txo)
    requires AllSiblings(steps) && Fold(h, steps, h.leaf(x)) == TrieHash(h, t)
    ensures var b := Shaped(TrieHash(h, t), steps, h.leaf(x)); VouchesIn(h, t, b, x) && Judge(h, t, b, x) == Trace(h, t, steps, x)
  {
    ClimbOverSteps(h, [Entry(RootEntry, TrieHash(h, t))], steps, Entry(LeafEntry, h.leaf(x)));
  }

  lemma TraceIntoLeaf(h: Hasher, t: Trie, x: Txo, y: Txo, r: Hash)
    requires t.Leaf? && t.elem.Output() == y
    ensures var steps := [Entry(RightEntry, r)];
      Fold(h, steps, h.leaf(x)) == h.node(h.leaf(x), r) && Trace(h, t, steps, x) == Broken(LeafAndNode(y, h.leaf(x), r))
  {
    assert [Entry(RightEntry, r)][1..] == [];
  }

  /** Siblings that go on below a leaf, where the leaf's hash is that of a pair. */
  lemma TracePastLeaf(h: Hasher, t: Trie, x: Txo, y: Txo, left: Hash, r: Hash)
    requires t.Branch? && t.right.Leaf? && t.right.elem.Output() == y && left == TrieHash(h, t.left) && h.node(h.leaf(x), r) == h.leaf(y)
    ensures var steps := [Entry(LeftEntry, left), Entry(RightEntry, r)];
      Fold(h, steps, h.leaf(x)) == TrieHash(h, t) && Trace(h, t, steps, x) == Broken(LeafAndNode(y, h.leaf(x), r))
  {
    TraceIntoLeaf(h, t.right, x, y, r);
    var steps := [Entry(LeftEntry, left), Entry(RightEntry, r)];
    assert steps[1..] == [Entry(RightEntry, r)];
    assert TrieHash(h, t.right) == h.leaf(y);
  }

  lemma TraceLeft(h: Hasher, t: Trie, z: Txo, right: Hash)
    requires t.Branch? && t.left.Leaf? && t.left.elem.Output() == z && right == TrieHash(h, t.right)
    ensures var steps := [Entry(RightEntry, right)];
      Fold(h, steps, h.leaf(z)) == TrieHash(h, t) && Trace(h, t, steps, z) == Stored
  {
    assert [Entry(RightEntry, right)][1..] == [];
  }

  /** The disguise is no collision: its bytes are those of the pair. */
  lemma DisguiseIsClean(digest: seq<byte> -> Hash, x: Txo)
    ensures Hashing(digest).node(digest(Serialized(x)), OtherHalf(digest, x)) == Hashing(digest).leaf(Disguise(digest, x))
    ensures Clean(digest, Broken(LeafAndNode(Disguise(digest, x), digest(Serialized(x)), OtherHalf(digest, x))))
  {
  }

  lemma LowerIsVouched(digest: seq<byte> -> Hash, x: Txo, z: Txo)
    ensures CleanlyVouched(digest, Above(digest, x, z), LowerBranch(digest, x, z), x)
  {
    var h, t, y, r, steps := Hashing(digest), Above(digest, x, z), Disguise(digest, x), OtherHalf(digest, x), LowerSteps(digest, x, z);
    DisguiseIsClean(digest, x);
    TracePastLeaf(h, t, x, y, digest(Serialized(z)), r);
    ShapedVouches(h, t, steps, x);
    assert Judge(h, t, LowerBranch(digest, x, z), x) == Broken(LeafAndNode(y, h.leaf(x), r));
  }

  lemma UpperIsVouched(digest: seq<byte> -> Hash, x: Txo, z: Txo)
    ensures CleanlyVouched(digest, Above(digest, x, z), UpperBranch(digest, x, z), z)
  {
    var h, t := Hashing(digest), Above(digest, x, z);
    TraceLeft(h, t, z, digest(Serialized(Disguise(digest, x))));
    ShapedVouches(h, t, UpperSteps(digest, x), z);
  }

  lemma FourAndThree(root: Entry, a: Entry, c: Entry, p: Entry, b: Entry, q: Entry)
    requires a.kind.LeftEntry? && c.kind.RightEntry? && p.kind.LeafEntry? && b.kind.RightEntry? && q.kind.LeafEntry?
    ensures ConsecutiveInFull([root, a, c, p], [root, b, q])
  {
    assert [root, a, c, p][1..] == [a, c, p] && [root, b, q][1..] == [b, q];
  }

  lemma LooksConsecutive(digest: seq<byte> -> Hash, x: Txo, z: Txo)
    ensures ConsecutiveInFull(LowerBranch(digest, x, z), UpperBranch(digest, x, z))
  {
    var a, b := LowerBranch(digest, x, z), UpperBranch(digest, x, z);
    FourAndThree(a[0], a[1], a[2], a[3], b[1], b[2]);
    assert a == [a[0], a[1], a[2], a[3]] && b == [a[0], b[1], b[2]];
  }

  lemma PairIsOffered(digest: seq<byte> -> Hash, x: Txo, z: Txo, lengths: set<nat>)
    requires 19 in lengths && |x.script| in lengths && |z.script| in lengths
    requires z.key > Disguise(digest, x).key
    ensures Offered(digest, Above(digest, x, z), LowerBranch(digest, x, z), UpperBranch(digest, x, z), x, z, lengths)
  {
    AboveIsValid(digest, x, z);
    LowerIsVouched(digest, x, z);
    UpperIsVouched(digest, x, z);
  }

  /** With a script of 19 bytes a stored key is made to look absent. Whatever the digest, for every x and
      every z above the disguise of x there are two branches of the right shape that vouch for x and z,
      need no collision and pass the full test, although x is not stored; and when x is below its
      disguise, the stored disguise lies strictly between the two. */
  lemma WellShapedMislead(digest: seq<byte> -> Hash, x: Txo, z: Txo, lengths: set<nat>)
    requires 19 in lengths && |x.script| in lengths && |z.script| in lengths
    requires z.key > Disguise(digest, x).key && z != x
    ensures var (t, a, b, y) := (Above(digest, x, z), LowerBranch(digest, x, z), UpperBranch(digest, x, z), Disguise(digest, x));
      && Offered(digest, t, a, b, x, z, lengths) && WellShaped(a) && WellShaped(b) && ConsecutiveInFull(a, b)
      && !Holds(t, x) && y.key in t.Contents() && y.key < z.key && (x.key != y.key ==> !Adjacent(t, x.key, z.key))
  {
    PairIsOffered(digest, x, z, lengths);
    DisguiseIsBetween(digest, x, z);
    LooksConsecutive(digest, x, z);
  }

  lemma DisguiseIsBetween(digest: seq<byte> -> Hash, x: Txo, z: Txo)
    requires z.key > Disguise(digest, x).key && z != x
    ensures var (t, y) := (Above(digest, x, z), Disguise(digest, x));
      !Holds(t, x) && y.key in t.Contents() && y.key < z.key && (x.key != y.key ==> !Adjacent(t, x.key, z.key))
  {
    AboveIsValid(digest, x, z);
  }

  // ------------------------------------------------------------------ exactly when the test can be trusted

  /** The tests decide on any two branches with the same in front of their siblings. */
  ghost predicate DecidesFor(lengths: set<nat>) {
    forall digest: seq<byte> -> Hash, t: Trie, a: seq<Entry>, b: seq<Entry>, x: Txo, y: Txo ::
      Offered(digest, t, a, b, x, y, lengths) ==> Comparable(a, b) ==> Decides(t, a, b, x.key, y.key)
  }

  /** They decide on any two branches of the right shape. */
  ghost predicate DecidesOnShaped(lengths: set<nat>) {
    forall digest: seq<byte> -> Hash, t: Trie, a: seq<Entry>, b: seq<Entry>, x: Txo, y: Txo ::
      Offered(digest, t, a, b, x, y, lengths) ==> WellShaped(a) && WellShaped(b) ==> Decides(t, a, b, x.key, y.key)
  }

  lemma {:induction false} ZerosSpellZero(n: nat)
    ensures LittleEndian(Zeros(n)) == 0
  {
    if n > 0 {
      ZerosSpellZero(n - 1);
      assert Zeros(n)[1..] == Zeros(n - 1);
    }
  }

  lemma PairIsWrong(digest: seq<byte> -> Hash, x: Txo, z: Txo)
    requires z.key > Disguise(digest, x).key && x.key > z.key
    ensures var (t, a, b) := (Above(digest, x, z), LowerBranch(digest, x, z), UpperBranch(digest, x, z));
      WellShaped(a) && WellShaped(b) && !Decides(t, a, b, x.key, z.key)
  {
    AboveIsValid(digest, x, z);
    LooksConsecutive(digest, x, z);
  }

  lemma MisledBy(digest: seq<byte> -> Hash, x: Txo, z: Txo, lengths: set<nat>)
    requires 19 in lengths && |x.script| in lengths && |z.script| in lengths
    requires z.key > Disguise(digest, x).key && x.key > z.key
    ensures !DecidesFor(lengths) && !DecidesOnShaped(lengths)
  {
    var t, a, b := Above(digest, x, z), LowerBranch(digest, x, z), UpperBranch(digest, x, z);
    PairIsOffered(digest, x, z, lengths);
    PairIsWrong(digest, x, z);
    WellShapedCompare(Hashing(digest), t, a, b, x, z);
  }

  lemma DisguiseOfNothing(digest: seq<byte> -> Hash, x: Txo)
    requires digest(Serialized(x)) == NO_HASH
    ensures Disguise(digest, x).key == 0
  {
    ZerosSpellZero(HASH_BYTES);
  }

  lemma Misled(lengths: set<nat>, n: nat)
    requires n in lengths && n == 19
    ensures !DecidesFor(lengths) && !DecidesOnShaped(lengths)
  {
    var digest := (s: seq<byte>) => NO_HASH;
    var x, z := Txo(2, 0, Zeros(n)), Txo(1, 0, Zeros(n));
    DisguiseOfNothing(digest, x);
    MisledBy(digest, x, z, lengths);
  }

  lemma OfferedDecides(digest: seq<byte> -> Hash, t: Trie, a: seq<Entry>, b: seq<Entry>, x: Txo, y: Txo, lengths: set<nat>)
    requires Offered(digest, t, a, b, x, y, lengths) && 19 !in lengths
    ensures Comparable(a, b) || (WellShaped(a) && WellShaped(b)) ==> Decides(t, a, b, x.key, y.key)
  {
    if WellShaped(a) && WellShaped(b) {
      WellShapedCompare(Hashing(digest), t, a, b, x, y);
    }
    if Comparable(a, b) {
      VouchedDecides(digest, t, a, b, x, y, lengths);
    }
  }

  /** The tests can be trusted on branches from somebody else exactly when no script may have 19 bytes;
      neither the same entries in front nor the right shape makes up for it. */
  lemma DecidesExactly(lengths: set<nat>)
    ensures DecidesFor(lengths) <==> 19 !in lengths
    ensures DecidesOnShaped(lengths) <==> 19 !in lengths
  {
    if 19 in lengths {
      Misled(lengths, 19);
    } else {
      forall digest: seq<byte> -> Hash, t: Trie, a: seq<Entry>, b: seq<Entry>, x: Txo, y: Txo | Offered(digest, t, a, b, x, y, lengths)
        ensures Comparable(a, b) || (WellShaped(a) && WellShaped(b)) ==> Decides(t, a, b, x.key, y.key)
      {
        OfferedDecides(digest, t, a, b, x, y, lengths);
      }
    }
  }
}

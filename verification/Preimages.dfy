/** Membership proofs under the hash that is used: leaves and pairs are digests of bytes, by one function. */
module Preimages {
  import opened Bytes
  import opened Keys
  import opened Octets
  import opened Tries
  import opened Canonical
  import opened Proofs
  import opened Serial

  /** The hash of an output is the digest of its bytes, the hash of a pair that of the two hashes in a row. */
  function Hashing(digest: seq<byte> -> Hash): Hasher {
    Hasher((x: Txo) => digest(Serialized(x)), (a: Hash, b: Hash) => digest(a + b))
  }

  /** Different bytes with one digest. */
  predicate Collide(digest: seq<byte> -> Hash, s: seq<byte>, t: seq<byte>) {
    s != t && digest(s) == digest(t)
  }

  /** The bytes behind two inputs with one hash. */
  function Preimages(c: Collision): (seq<byte>, seq<byte>) {
    match c
    case TwoLeaves(x, y) => (Serialized(x), Serialized(y))
    case TwoNodes(a, b, c, d) => (a + b, c + d)
    case LeafAndNode(x, a, b) => (Serialized(x), a + b)
  }

  /** A verdict that did not need a collision of the digest. */
  predicate Clean(digest: seq<byte> -> Hash, v: Verdict) {
    v.Broken? ==> !Collide(digest, Preimages(v.collision).0, Preimages(v.collision).1)
  }

  lemma PairsDiffer(a: Hash, b: Hash, c: Hash, d: Hash)
    requires (a, b) != (c, d)
    ensures a + b != c + d
  {
    assert (a + b)[..HASH_BYTES] == a && (a + b)[HASH_BYTES..] == b;
    assert (c + d)[..HASH_BYTES] == c && (c + d)[HASH_BYTES..] == d;
  }

  /** What is hashed: an output in its layout, and of two hashes the 32 bytes of the left one first. */
  lemma HashedBytes(digest: seq<byte> -> Hash, x: Txo, s: seq<byte>, a: Hash, b: Hash, pair: seq<byte>)
    requires LaidOut(s, x) && |pair| == 64 && pair[..32] == a && pair[32..] == b
    ensures Hashing(digest).leaf(x) == digest(s) && Hashing(digest).node(a, b) == digest(pair)
  {
    LayoutIsExact(s, x);
    assert pair == a + b;
  }

  /** And so the bytes under the hash of a trie: those of its output, or its children's hashes, the left one first. */
  lemma TrieHashBytes(digest: seq<byte> -> Hash, t: Trie, s: seq<byte>)
    requires t.Leaf? ==> LaidOut(s, Txo(t.elem.key, t.elem.value, t.elem.script))
    requires var h := Hashing(digest);
      t.Branch? ==> |s| == 64 && s[..32] == TrieHash(h, t.left) && s[32..] == TrieHash(h, t.right)
    ensures TrieHash(Hashing(digest), t) == digest(s)
  {
    var h := Hashing(digest);
    if t.Leaf? {
      LayoutIsExact(s, t.elem.Output());
    } else {
      assert s == TrieHash(h, t.left) + TrieHash(h, t.right);
    }
  }

  /** Inputs with one hash are a collision of the digest, or an output whose bytes are a pair of hashes. */
  lemma CollisionOfBytes(digest: seq<byte> -> Hash, c: Collision)
    requires c.Genuine(Hashing(digest))
    ensures var (s, t) := Preimages(c);
      Collide(digest, s, t) || (c.LeafAndNode? && s == t && |c.x.script| == 19)
  {
    match c {
      case TwoLeaves(x, y) =>
        if Serialized(x) == Serialized(y) {
          SerializedInjective(x, y);
        }
      case TwoNodes(a, b, c, d) =>
        PairsDiffer(a, b, c, d);
      case LeafAndNode(x, a, b) =>
        SerializedLength(x);
    }
  }

  /** Every script stored has a length that is allowed. */
  ghost predicate LengthsIn(t: Trie, lengths: set<nat>) {
    forall k | k in t.Contents() :: |t.Contents()[k].script| in lengths
  }

  /** Where no script has 19 bytes, vouching against the root hash without a collision is exactly membership. */
  lemma MembershipExact(digest: seq<byte> -> Hash, t: Trie, x: Txo, lengths: set<nat>)
    requires t.Valid() && LengthsIn(t, lengths) && |x.script| in lengths && 19 !in lengths
    ensures var h := Hashing(digest);
      (exists b: seq<Entry> :: VouchesIn(h, t, b, x) && Clean(digest, Judge(h, t, b, x))) <==> Holds(t, x)
  {
    var h := Hashing(digest);
    if b: seq<Entry> :| VouchesIn(h, t, b, x) && Clean(digest, Judge(h, t, b, x)) {
      VouchedIsStored(digest, t, b, x, lengths);
    }
    if Holds(t, x) {
      var root := Full(t);
      MembershipComplete(h, root, x.key);
      var b := BranchOf(h, t, Find(root, x.key).path[1..]);
      assert VouchesIn(h, t, b, x) && Clean(digest, Judge(h, t, b, x));
    }
  }

  lemma VouchedIsStored(digest: seq<byte> -> Hash, t: Trie, b: seq<Entry>, x: Txo, lengths: set<nat>)
    requires t.Valid() && LengthsIn(t, lengths) && |x.script| in lengths && 19 !in lengths
    requires VouchesIn(Hashing(digest), t, b, x) && Clean(digest, Judge(Hashing(digest), t, b, x))
    ensures Judge(Hashing(digest), t, b, x) == Stored && Holds(t, x)
  {
    var h := Hashing(digest);
    MembershipSound(h, t, b, x);
    var v := Judge(h, t, b, x);
    if v.Broken? {
      CollisionOfBytes(digest, v.collision);
    }
  }

  // ------------------------------------------------------------------ outputs of 64 bytes

  /** An output whose bytes begin with the hash of x. */
  function Disguise(digest: seq<byte> -> Hash, x: Txo): (y: Txo)
    ensures |y.script| == 19 && y != x
  {
    NumberIsShort(digest(Serialized(x)));
    Txo(LittleEndian(digest(Serialized(x))), if x.value == 0 then 1 else 0, Zeros(19))
  }

  lemma NumberFirst(y: Txo, a: seq<byte>)
    requires |a| <= COIN_BYTES && y.key == LittleEndian(a)
    ensures a <= Serialized(y)
  {
    BeginsWith(a, COIN_BYTES, LowFirst(Pattern(y.value), VALUE_BYTES), VarInt(|y.script|) + y.script);
  }

  lemma DisguiseIsPair(digest: seq<byte> -> Hash, x: Txo)
    ensures var s := Serialized(Disguise(digest, x));
      |s| == 64 && s == digest(Serialized(x)) + s[HASH_BYTES..]
  {
    var y, a := Disguise(digest, x), digest(Serialized(x));
    SerializedLength(y);
    NumberFirst(y, a);
    assert Serialized(y) == Serialized(y)[..|a|] + Serialized(y)[|a|..];
  }

  function LeafOf(x: Txo): Trie {
    Leaf(Elem(x.key, x.value, x.script, 0, 0, 0))
  }

  /** The trie that stores nothing but the disguise, and the branch that vouches for x in it. */
  function DisguisedTrie(digest: seq<byte> -> Hash, x: Txo): Trie {
    LeafOf(Disguise(digest, x))
  }

  function DisguisedBranch(digest: seq<byte> -> Hash, x: Txo): seq<Entry> {
    DisguiseIsPair(digest, x);
    var s := Serialized(Disguise(digest, x));
    [Entry(RootEntry, digest(s)), Entry(RightEntry, s[HASH_BYTES..]), Entry(LeafEntry, digest(Serialized(x)))]
  }

  lemma DisguiseVouches(digest: seq<byte> -> Hash, x: Txo)
    ensures VouchesIn(Hashing(digest), DisguisedTrie(digest, x), DisguisedBranch(digest, x), x)
  {
    var h, b := Hashing(digest), DisguisedBranch(digest, x);
    DisguiseIsPair(digest, x);
    assert Climb(h, b, 2, b[2].hash) == Climb(h, b, 1, b[0].hash);
  }

  lemma DisguiseIsJudged(digest: seq<byte> -> Hash, x: Txo)
    ensures Judge(Hashing(digest), DisguisedTrie(digest, x), DisguisedBranch(digest, x), x)
      == Broken(LeafAndNode(Disguise(digest, x), digest(Serialized(x)), DisguisedBranch(digest, x)[1].hash))
  {
    var b := DisguisedBranch(digest, x);
    var steps := [b[1]];
    HeadAndSteps([b[0]], steps, b[2]);
    assert b == [b[0]] + (steps + [b[2]]);
    assert steps[1..] == [];
  }

  /** With a script of 19 bytes a stored leaf passes for a branch: whatever the digest, and for every
      output x, there is a trie without x whose root hash x is vouched for, and no collision is needed. */
  lemma DisguisePasses(digest: seq<byte> -> Hash, x: Txo)
    ensures var (h, t, b) := (Hashing(digest), DisguisedTrie(digest, x), DisguisedBranch(digest, x));
      && t.Valid() && LengthsIn(t, {19}) && VouchesIn(h, t, b, x) && Clean(digest, Judge(h, t, b, x)) && !Holds(t, x)
  {
    DisguiseIsPair(digest, x);
    DisguiseVouches(digest, x);
    DisguiseIsJudged(digest, x);
    assert DisguisedTrie(digest, x).elem.Output() == Disguise(digest, x);
  }

  /** Vouching without a collision means membership in every trie whose scripts have these lengths. */
  ghost predicate SoundFor(lengths: set<nat>) {
    forall digest: seq<byte> -> Hash, t: Trie, b: seq<Entry>, x: Txo ::
      (t.Valid() && LengthsIn(t, lengths) && |x.script| in lengths
       && VouchesIn(Hashing(digest), t, b, x) && Clean(digest, Judge(Hashing(digest), t, b, x))) ==> Holds(t, x)
  }

  /** It does so exactly when no script may have 19 bytes. */
  lemma SoundExactly(lengths: set<nat>)
    ensures SoundFor(lengths) <==> 19 !in lengths
  {
    if 19 in lengths {
      var digest := (s: seq<byte>) => NO_HASH;
      var x := Txo(0, 0, Zeros(19));
      DisguisePasses(digest, x);
      assert LengthsIn(DisguisedTrie(digest, x), lengths);
    } else {
      forall digest: seq<byte> -> Hash, t: Trie, b: seq<Entry>, x: Txo
        | t.Valid() && LengthsIn(t, lengths) && |x.script| in lengths
          && VouchesIn(Hashing(digest), t, b, x) && Clean(digest, Judge(Hashing(digest), t, b, x))
        ensures Holds(t, x)
      {
        VouchedIsStored(digest, t, b, x, lengths);
      }
    }
  }
}

/** The tree of blocks: a trunk in a vector, branches in a map, and signed heights, which make stepping
    and comparing fast without changing what the prev links say. */
module BlockTrees {
  import opened Compact
  import opened Words

  type BlockHash = nat

  /** The 32 bits of a compact target; those that make the buffer wrap around are left out. */
  type Bits = b: nat | b < 0xFC00_0000

  datatype Block = Block(hash: BlockHash, prev: BlockHash, time: int, bits: Bits)

  /** A place in the tree, or its end. */
  datatype Iterator = End | At(block: Block)

  /** 2 to the 256. */
  const HASHES: nat := 0x1_00000000_00000000_00000000_00000000_00000000_00000000_00000000_00000000

  function Share(whole: nat, parts: nat): nat
    requires parts > 0
  {
    whole / parts
  }

  /** What the bits make of a fresh number: with the sign bit set it stays nothing. */
  function Target(bits: Bits): int {
    if bits < 0x8000_0000 then Decompacted(bits) else 0
  }

  /** The expected number of hashes behind a block. */
  function Work(b: Block): nat {
    var target := Target(b.bits);
    if target <= 0 then 0 else Share(HASHES, target + 1)
  }

  function Magnitude(h: int): nat {
    if h < 0 then -h else h
  }

  // ------------------------------------------------------------------ what work is

  lemma HashesArePow2(n: nat)
    requires n == 256
    ensures HASHES == Pow2(n)
  {
    DoubledByTwoWords(1);
    DoubledByTwoWords(Doubled(1, 64));
    DoubledTwice(1, 64, 64);
    DoubledByTwoWords(Doubled(1, 128));
    DoubledTwice(1, 128, 64);
    DoubledByTwoWords(Doubled(1, 192));
    DoubledTwice(1, 192, 64);
    DoubledIsProduct(1, n);
  }

  lemma ShareIsQuotient(whole: nat, parts: nat)
    requires parts > 0
    ensures Share(whole, parts) * parts <= whole < (Share(whole, parts) + 1) * parts
    ensures Share(whole, parts) == 0 <==> whole < parts
  {
    var q := whole / parts;
    assert whole == q * parts + whole % parts;
    assert (q + 1) * parts == q * parts + parts;
    if whole < parts && q > 0 {
      Scaled(parts, 1, q);
    }
  }

  /** A block's work is 2 to the 256, divided by one more than its target, and nothing for a target that
      is not positive or too large. */
  lemma WorkIsShare(b: Block)
    ensures var t := Target(b.bits);
      && (t > 0 ==> Work(b) * (t + 1) <= HASHES < (Work(b) + 1) * (t + 1))
      && (Work(b) == 0 <==> t <= 0 || t >= HASHES)
  {
    if Target(b.bits) > 0 {
      ShareIsQuotient(HASHES, Target(b.bits) + 1);
    }
  }

  lemma OrdinaryWork(b: Block)
    ensures 0 < Target(b.bits) < HASHES ==> Work(b) > 0
  {
    WorkIsShare(b);
  }

  lemma ProductGrows(p: nat, q: nat, parts: nat, more: nat)
    requires parts <= more
    ensures p > q ==> (q + 1) * parts <= p * more
  {
    if p > q {
      Scaled(parts, q + 1, p);
      Scaled(p, parts, more);
      assert (q + 1) * parts <= p * parts <= p * more;
    }
  }

  lemma ShareFalls(whole: nat, parts: nat, more: nat)
    requires 0 < parts <= more
    ensures Share(whole, more) <= Share(whole, parts)
  {
    ShareIsQuotient(whole, parts);
    ShareIsQuotient(whole, more);
    ProductGrows(Share(whole, more), Share(whole, parts), parts, more);
  }

  /** A harder target never takes less work. */
  lemma HarderIsMoreWork(hard: Block, easy: Block)
    requires 0 < Target(hard.bits) <= Target(easy.bits)
    ensures Work(easy) <= Work(hard)
  {
    ShareFalls(HASHES, Target(hard.bits) + 1, Target(easy.bits) + 1);
  }

  // ------------------------------------------------------------------ what the prev links say

  /** The n-th ancestor along the prev links. */
  function Up(blocks: map<BlockHash, Block>, b: Block, n: nat): Iterator
    decreases n, b
  {
    if n == 0 then At(b) else if b.prev in blocks then Up(blocks, blocks[b.prev], n - 1) else End
  }

  /** The work of a block and its n nearest ancestors. */
  function WorkBelow(blocks: map<BlockHash, Block>, b: Block, n: nat): nat
    decreases n, b
  {
    Work(b) + if n > 0 && b.prev in blocks then WorkBelow(blocks, blocks[b.prev], n - 1) else 0
  }

  /** a can be reached from b by at least one prev link. */
  ghost predicate Below(blocks: map<BlockHash, Block>, a: Block, b: Block) {
    exists n: nat :: n > 0 && Up(blocks, b, n) == At(a)
  }

  lemma {:induction false} UpTwice(blocks: map<BlockHash, Block>, b: Block, m: nat, n: nat)
    requires Up(blocks, b, m).At?
    ensures Up(blocks, b, m + n) == Up(blocks, Up(blocks, b, m).block, n)
    decreases m
  {
    if m > 0 {
      UpTwice(blocks, blocks[b.prev], m - 1, n);
    }
  }

  /** Below a block nothing changes when another block is added. */
  lemma {:induction false} SameBelow(blocks: map<BlockHash, Block>, ref: Block, b: Block, n: nat)
    requires ref.hash !in blocks && Up(blocks, b, n).At?
    ensures WorkBelow(blocks[ref.hash := ref], b, n) == WorkBelow(blocks, b, n)
    ensures Up(blocks[ref.hash := ref], b, n) == Up(blocks, b, n)
    decreases n
  {
    if n > 0 {
      SameBelow(blocks, ref, blocks[b.prev], n - 1);
    }
  }

  /** Nobody's ancestors change when a block is added that nobody has been waiting for. */
  lemma {:induction false} SameUp(blocks: map<BlockHash, Block>, ref: Block, b: Block, n: nat)
    requires ref.hash !in blocks && b.prev != ref.hash && forall h | h in blocks :: blocks[h].prev != ref.hash
    ensures Up(blocks[ref.hash := ref], b, n) == Up(blocks, b, n)
    decreases n
  {
    if n > 0 && b.prev in blocks {
      SameUp(blocks, ref, blocks[b.prev], n - 1);
    }
  }

  /** The blocks of one map have the same ancestors in another. */
  ghost predicate SameAncestors(blocks: map<BlockHash, Block>, later: map<BlockHash, Block>) {
    forall h, n: nat {:trigger Up(later, blocks[h], n)} | h in blocks :: Up(later, blocks[h], n) == Up(blocks, blocks[h], n)
  }

  lemma AncestorsStay(blocks: map<BlockHash, Block>, ref: Block)
    requires ref.hash !in blocks && forall h | h in blocks :: blocks[h].prev != ref.hash
    ensures SameAncestors(blocks, blocks) && SameAncestors(blocks, blocks[ref.hash := ref])
  {
    forall h, n: nat | h in blocks
      ensures Up(blocks[ref.hash := ref], blocks[h], n) == Up(blocks, blocks[h], n)
    {
      SameUp(blocks, ref, blocks[h], n);
    }
  }

  class BlockTree {
    var trunk: seq<Block>
    var branches: map<BlockHash, Block>
    var heights: map<BlockHash, int>
    var accWork: seq<nat>

    /** Every block that is in the tree. */
    ghost var blocks: map<BlockHash, Block>

    constructor ()
      ensures Valid() && trunk == [] && blocks == map[]
    {
      trunk, branches, heights, accWork, blocks := [], map[], map[], [], map[];
    }

    /** A trunk block is where its height says. */
    ghost predicate OnTrunk(i: nat)
      requires i < |trunk|
      reads `trunk, `blocks, `heights
    {
      var b := trunk[i];
      && b.hash in blocks && blocks[b.hash] == b && b.hash in heights && heights[b.hash] == i
    }

    /** A block's signed height: on the trunk its index; on a branch the negative of one more than its
        parent's. Only a block of height zero has no parent. */
    ghost predicate Placed(h: BlockHash)
      requires h in blocks
      reads `trunk, `branches, `blocks, `heights
    {
      && h in heights && blocks[h].hash == h
      && (heights[h] >= 0 ==> heights[h] < |trunk| && trunk[heights[h]].hash == h)
      && (heights[h] < 0 <==> h in branches)
      && (blocks[h].prev in blocks <==> heights[h] != 0)
      && (heights[h] != 0 ==> blocks[h].prev in heights && Magnitude(heights[h]) == Magnitude(heights[blocks[h].prev]) + 1)
      && (heights[h] > 0 ==> blocks[h].prev == trunk[heights[h] - 1].hash)
    }

    ghost predicate Valid()
      reads this
    {
      && (forall i {:trigger OnTrunk(i)} | 0 <= i < |trunk| :: OnTrunk(i))
      && (forall h {:trigger Placed(h)} | h in blocks :: Placed(h))
      && heights.Keys == blocks.Keys
      && (forall h {:trigger h in branches} | h in branches :: h in blocks && branches[h] == blocks[h])
      && |accWork| == |trunk|
      && (forall i {:trigger accWork[i]} | 0 <= i < |trunk| :: accWork[i] == WorkBelow(blocks, trunk[i], i))
    }

    ghost predicate Has(b: Block)
      reads `blocks
    {
      b.hash in blocks && blocks[b.hash] == b
    }

    /** Everything a block and its ancestors took. */
    ghost function Total(b: Block): nat
      requires Valid() && Has(b)
      reads this
    {
      assert Placed(b.hash);
      WorkBelow(blocks, b, Magnitude(heights[b.hash]))
    }

    /** No block anywhere has more work behind it than the tip of the trunk. */
    ghost predicate Best()
      requires Valid()
      reads this
    {
      trunk != [] && forall b {:trigger Has(b)} | Has(b) :: Total(b) <= accWork[|trunk| - 1]
    }

    // ---------------------------------------------------------------- looking up

    function Height(b: Block): int
      requires Valid() && Has(b)
      reads this
    {
      assert Placed(b.hash);
      heights[b.hash]
    }

    method Find(hash: BlockHash) returns (i: Iterator)
      requires Valid()
      ensures i == if hash in blocks then At(blocks[hash]) else End
      ensures i.At? ==> Has(i.block) && i.block.hash == hash
    {
      assert hash in blocks ==> Placed(hash);
      if hash !in heights {
        return End;
      }
      if heights[hash] < 0 {
        return At(branches[hash]);
      } else {
        assert OnTrunk(heights[hash]);
        return At(trunk[heights[hash]]);
      }
    }

    // ---------------------------------------------------------------- stepping

    /** On the trunk the prev links step down the vector. */
    lemma {:induction false} UpOnTrunk(i: nat, n: nat)
      requires Valid() && i < |trunk|
      ensures Up(blocks, trunk[i], n) == if n <= i then At(trunk[i - n]) else End
      decreases n
    {
      assert OnTrunk(i) && Placed(trunk[i].hash);
      if n > 0 && i > 0 {
        assert OnTrunk(i - 1);
        UpOnTrunk(i - 1, n - 1);
      }
    }

    /** A block has exactly as many ancestors as the magnitude of its height says. */
    lemma {:induction false} UpReaches(b: Block, n: nat)
      requires Valid() && Has(b)
      ensures Up(blocks, b, n).At? <==> n <= Magnitude(Height(b))
      ensures Up(blocks, b, n).At? ==>
        Has(Up(blocks, b, n).block) && Magnitude(Height(Up(blocks, b, n).block)) == Magnitude(Height(b)) - n
      decreases n
    {
      assert Placed(b.hash);
      if n > 0 && b.prev in blocks {
        assert Placed(b.prev);
        UpReaches(blocks[b.prev], n - 1);
      }
    }

    /** The first trunk block on the way down from b, b itself when it is on the trunk. */
    ghost function Fork(b: Block): (f: Block)
      requires Valid() && Has(b)
      reads this
      ensures Has(f) && 0 <= Height(f) <= Magnitude(Height(b))
      ensures Up(blocks, b, Magnitude(Height(b)) - Height(f)) == At(f)
      decreases Magnitude(Height(b))
    {
      assert Placed(b.hash);
      if Height(b) >= 0 then b
      else
        assert Placed(b.prev);
        Fork(blocks[b.prev])
    }

    /** Nothing on the way down to it is on the trunk. */
    lemma {:induction false} ForkIsFirst(b: Block, n: nat)
      requires Valid() && Has(b) && n < Magnitude(Height(b)) - Height(Fork(b))
      ensures Up(blocks, b, n).At? && Up(blocks, b, n).block.hash in branches
      decreases n
    {
      assert Placed(b.hash);
      if n > 0 {
        assert Placed(b.prev);
        ForkIsFirst(blocks[b.prev], n - 1);
      }
    }

    /** One step down a branch. */
    method StepDown(b: Block) returns (prev: Block)
      requires Valid() && Has(b) && Height(b) < 0
      ensures Has(prev) && b.prev in blocks && prev == blocks[b.prev]
    {
      assert Placed(b.hash) && Placed(b.prev);
      prev := b;
      if b.prev in branches {
        prev := branches[b.prev];
      } else if b.prev in heights {
        assert OnTrunk(heights[b.prev]);
        prev := trunk[heights[b.prev]];
      }
    }

    /** Moving forward works on the trunk only. Moving back by n leads to the n-th ancestor; with fewer
        than n ancestors it stops where the branch leaves the trunk, or does not move at all on the trunk. */
    method Advance(from: Iterator, count: int) returns (i: Iterator)
      requires Valid() && (from.At? ==> Has(from.block))
      ensures i.At? ==> Has(i.block)
      ensures from.End? || count == 0 ==> i == from
      ensures from.At? && count > 0 ==>
        var h := Height(from.block); i == if 0 <= h < |trunk| - count then At(trunk[h + count]) else End
      ensures from.At? && count < 0 ==>
        i == if -count <= Magnitude(Height(from.block)) then Up(blocks, from.block, -count) else At(Fork(from.block))
    {
      i := from;
      if from.End? {
        return;
      }
      if count > 0 {
        var h := Height(from.block);
        if h < 0 {
          i := End;
        } else {
          h := h + count;
          if h >= |trunk| {
            i := End;
          } else {
            assert OnTrunk(h);
            i := At(trunk[h]);
          }
        }
      } else if count < 0 {
        var b, n := from.block, count;
        while n < 0 && Height(b) < 0
          invariant count <= n <= 0 && Has(b) && Fork(b) == Fork(from.block)
          invariant n - count <= Magnitude(Height(from.block)) && Up(blocks, from.block, n - count) == At(b)
          invariant Magnitude(Height(b)) == Magnitude(Height(from.block)) - (n - count)
          decreases -n
        {
          ghost var was := b;
          b := StepDown(b);
          UpTwice(blocks, from.block, n - count, 1);
          assert Up(blocks, was, 1) == Up(blocks, b, 0) == At(b);
          UpReaches(was, 1);
          n := n + 1;
        }
        i := At(b);
        var h := Height(b) + n;
        if h >= 0 {
          assert Placed(b.hash) && OnTrunk(Height(b)) && OnTrunk(h);
          UpOnTrunk(Height(b), -n);
          UpTwice(blocks, from.block, n - count, -n);
          i := At(trunk[h]);
        }
      }
    }

    // ---------------------------------------------------------------- comparing

    /** An ancestor lies lower than its descendants. */
    lemma BelowIsLower(a: Block, b: Block)
      requires Valid() && Has(a) && Has(b) && Below(blocks, a, b)
      ensures Magnitude(Height(a)) < Magnitude(Height(b))
    {
      var n: nat :| n > 0 && Up(blocks, b, n) == At(a);
      UpReaches(b, n);
    }

    /** What is below a trunk block is the trunk under it. */
    lemma BelowTrunk(a: Block, b: Block)
      requires Valid() && Has(a) && Has(b) && Height(b) >= 0
      ensures Below(blocks, a, b) <==> 0 <= Height(a) < Height(b)
    {
      assert Placed(a.hash) && Placed(b.hash) && OnTrunk(Height(b));
      if 0 <= Height(a) < Height(b) {
        assert OnTrunk(Height(a));
        UpOnTrunk(Height(b), Height(b) - Height(a));
      }
      if Below(blocks, a, b) {
        var n: nat :| n > 0 && Up(blocks, b, n) == At(a);
        UpOnTrunk(Height(b), n);
        assert OnTrunk(Height(b) - n);
      }
    }

    /** What is below a branch block is its parent and what is below that. */
    lemma BelowParent(a: Block, b: Block)
      requires Valid() && Has(a) && Has(b) && b.prev in blocks
      ensures Below(blocks, a, b) <==> a == blocks[b.prev] || Below(blocks, a, blocks[b.prev])
    {
      var p := blocks[b.prev];
      if Below(blocks, a, b) {
        var n: nat :| n > 0 && Up(blocks, b, n) == At(a);
        assert Up(blocks, p, n - 1) == At(a);
      }
      if Below(blocks, a, p) {
        var n: nat :| n > 0 && Up(blocks, p, n) == At(a);
        assert Up(blocks, b, n + 1) == At(a);
      }
      if a == p {
        assert Up(blocks, b, 1) == Up(blocks, p, 0);
      }
    }

    /** The comparison decides ancestry: for different blocks it is true exactly when the left one can be
        reached from the right one by prev links. A trunk block also counts as below itself. */
    method LessThan(left: Iterator, right: Iterator) returns (less: bool)
      requires Valid() && (left.At? ==> Has(left.block)) && (right.At? ==> Has(right.block))
      ensures less <==> (left.At? && right.At?
        && (Below(blocks, left.block, right.block) || (left == right && Height(left.block) >= 0)))
    {
      if left.End? || right.End? {
        return false;
      }
      var a, rhs := left.block, right.block;
      var lheight, rheight := Height(a), Height(rhs);
      assert Placed(a.hash) && Placed(rhs.hash);
      if Below(blocks, a, rhs) {
        BelowIsLower(a, rhs);
      }
      if rheight >= 0 {
        BelowTrunk(a, rhs);
      }
      if Magnitude(lheight) > Magnitude(rheight) {
        return false;
      }
      if lheight < 0 && rheight > 0 {
        return false;
      }
      if lheight > 0 && rheight > 0 {
        assert lheight == rheight ==> OnTrunk(lheight) && a == rhs;
        return true;
      }
      less := Crawl(a, rhs);
    }

    /** The loop of the comparison, when one of the two may be on a branch or at the root. */
    method Crawl(a: Block, b: Block) returns (less: bool)
      requires Valid() && Has(a) && Has(b) && Magnitude(Height(a)) <= Magnitude(Height(b))
      requires Height(b) < 0 || Height(a) == 0
      ensures less <==> Below(blocks, a, b) || (a == b && Height(a) >= 0)
    {
      var rhs := b;
      while true
        invariant Has(rhs) && (Height(rhs) < 0 || (rhs == b && Height(a) == 0))
        invariant Below(blocks, a, b) <==> Below(blocks, a, rhs)
        invariant rhs != b ==> Height(b) < 0
        decreases Magnitude(Height(rhs))
      {
        ghost var was := rhs;
        assert Placed(was.hash) && Placed(a.hash);
        assert Height(was) == 0 ==> a == was;
        assert Height(was) > 0 ==> OnTrunk(Height(was) - 1);
        var i := Advance(At(rhs), -1);
        StepIsParent(was);
        rhs := i.block;
        if rhs == a {
          if Height(was) != 0 {
            BelowParent(a, was);
          }
          return true;
        }
        var rheight := Height(rhs);
        if Height(was) != 0 {
          BelowParent(a, was);
        }
        if rheight >= 0 {
          BelowTrunk(a, rhs);
          if Height(a) < 0 {
            return false;
          } else {
            return Height(a) < rheight;
          }
        }
      }
    }

    /** One step back is the parent, except at the root, where it is no step. */
    lemma StepIsParent(b: Block)
      requires Valid() && Has(b)
      ensures Height(b) != 0 ==> b.prev in blocks && Up(blocks, b, 1) == At(blocks[b.prev]) && Has(blocks[b.prev])
      ensures Height(b) != 0 ==> Magnitude(Height(blocks[b.prev])) == Magnitude(Height(b)) - 1
      ensures Height(b) == 0 ==> Fork(b) == b
    {
      assert Placed(b.hash);
      if Height(b) != 0 {
        assert Placed(b.prev);
        assert Up(blocks, blocks[b.prev], 0) == At(blocks[b.prev]);
      }
    }

    // ---------------------------------------------------------------- building

    /** Everything about a valid tree except the work. */
    ghost predicate Linked()
      reads `trunk, `branches, `blocks, `heights
    {
      && (forall i {:trigger OnTrunk(i)} | 0 <= i < |trunk| :: OnTrunk(i))
      && (forall h {:trigger Placed(h)} | h in blocks :: Placed(h))
      && heights.Keys == blocks.Keys
      && (forall h {:trigger h in branches} | h in branches :: h in blocks && branches[h] == blocks[h])
    }

    /** The first h blocks are linked, each to the one before. */
    static ghost predicate RowUpTo(row: seq<Block>, h: nat)
      requires h <= |row|
    {
      forall i {:trigger row[i].prev} | 1 <= i < h :: row[i].prev == row[i - 1].hash
    }

    static ghost predicate RowOf(row: seq<Block>) {
      RowUpTo(row, |row|)
    }

    static lemma RowGrows(row: seq<Block>, h: nat)
      requires 1 <= h < |row| && RowUpTo(row, h)
      ensures RowUpTo(row, h + 1) <==> row[h].prev == row[h - 1].hash
      ensures RowOf(row) ==> row[h].prev == row[h - 1].hash
    {
    }

    /** The index knows the first h blocks of the trunk and no others. */
    ghost predicate Indexed(h: nat)
      requires h <= |trunk|
      reads `trunk, `blocks, `heights
    {
      && heights.Keys == blocks.Keys
      && (forall i {:trigger OnTrunk(i)} | 0 <= i < h :: OnTrunk(i))
      && forall x {:trigger x in blocks} | x in blocks ::
           x in heights && 0 <= heights[x] < h && trunk[heights[x]].hash == x && blocks[x] == trunk[heights[x]]
    }

    /** No block occurs twice, and the first one's parent not at all. */
    static ghost predicate Plain(row: seq<Block>) {
      && (forall i, j {:trigger row[i], row[j]} | 0 <= i < j < |row| :: row[i].hash != row[j].hash)
      && forall i {:trigger row[i]} | 0 <= i < |row| :: row[i].hash != row[0].prev
    }

    /** Enter one more trunk block into the index. */
    method IndexOne(h: nat)
      requires h < |trunk| && Plain(trunk) && Indexed(h)
      modifies `heights, `blocks
      ensures Indexed(h + 1)
    {
      heights := heights[trunk[h].hash := h];
      blocks := blocks[trunk[h].hash := trunk[h]];
      forall i | 0 <= i <= h
        ensures OnTrunk(i)
      {
        assert i < h ==> trunk[i].hash != trunk[h].hash && old(OnTrunk(i));
      }
    }

    /** Put a trunk into a fresh tree. A row of blocks that are not linked is refused half way. */
    method AssignTrunk(row: seq<Block>) returns (ok: bool)
      requires Valid() && trunk == [] && blocks == map[] && row != []
      requires Plain(row)
      modifies `trunk, `heights, `branches, `blocks
      ensures ok <==> RowOf(row)
      ensures ok ==> Linked() && trunk == row && branches == map[]
    {
      trunk := row;
      IndexOne(0);
      var h := 1;
      while h < |trunk|
        invariant 1 <= h <= |trunk| && trunk == row && Indexed(h) && RowUpTo(row, h)
      {
        RowGrows(row, h);
        if trunk[h].prev != trunk[h - 1].hash {
          return false;
        }
        IndexOne(h);
        h := h + 1;
      }
      branches := map[];
      IndexedIsLinked();
      return true;
    }

    /** A trunk whose index is complete is linked. */
    lemma IndexedIsLinked()
      requires trunk != [] && branches == map[] && RowOf(trunk) && Indexed(|trunk|) && Plain(trunk)
      ensures Linked()
    {
      forall x | x in blocks
        ensures Placed(x)
      {
        var i := heights[x];
        assert i > 0 ==> OnTrunk(i - 1) && trunk[i].prev == trunk[i - 1].hash;
      }
    }

    /** Put a trunk into a fresh tree, and add up its work. */
    method Assign(row: seq<Block>) returns (ok: bool)
      requires Valid() && trunk == [] && blocks == map[]
      requires Plain(row)
      modifies this
      ensures ok <==> RowOf(row)
      ensures ok ==> Valid() && trunk == row && forall b :: Has(b) <==> b in row
      ensures ok && row != [] ==> Best()
    {
      if |row| == 0 {
        return true;
      }
      ok := AssignTrunk(row);
      if !ok {
        return;
      }
      SumWork();
      BareTrunk();
    }

    lemma WorkAddsUp(h: nat)
      requires Linked() && 1 <= h < |trunk|
      ensures WorkBelow(blocks, trunk[h], h) == Work(trunk[h]) + WorkBelow(blocks, trunk[h - 1], h - 1)
    {
      assert OnTrunk(h - 1) && OnTrunk(h) && Placed(trunk[h].hash);
    }

    /** The accumulated work along a trunk. */
    method SumWork()
      requires Linked() && trunk != []
      modifies `accWork
      ensures Valid()
    {
      accWork := [Work(trunk[0])];
      var h := 1;
      while h < |trunk|
        invariant 1 <= h <= |trunk| && |accWork| == h
        invariant forall i {:trigger accWork[i]} | 0 <= i < h :: accWork[i] == WorkBelow(blocks, trunk[i], i)
      {
        WorkAddsUp(h);
        accWork := accWork + [accWork[h - 1] + Work(trunk[h])];
        h := h + 1;
      }
    }

    /** Where there are no branches the blocks are those of the trunk, and its tip is the best. */
    lemma BareTrunk()
      requires Valid() && branches == map[] && trunk != []
      ensures Best() && forall b :: Has(b) <==> b in trunk
    {
      forall b
        ensures Has(b) <==> b in trunk
      {
        if b in trunk {
          var i :| 0 <= i < |trunk| && trunk[i] == b;
          assert OnTrunk(i);
        }
        if Has(b) {
          assert Placed(b.hash) && OnTrunk(heights[b.hash]);
        }
      }
      forall b | Has(b)
        ensures Total(b) <= accWork[|trunk| - 1]
      {
        assert Placed(b.hash) && OnTrunk(heights[b.hash]);
        TrunkWorkGrows(heights[b.hash], |trunk| - 1);
      }
    }

    /** Further up the trunk there is no less work. */
    lemma {:induction false} TrunkWorkGrows(i: nat, j: nat)
      requires Valid() && i <= j < |trunk|
      ensures accWork[i] <= accWork[j]
      decreases j
    {
      if i < j {
        assert OnTrunk(j) && OnTrunk(j - 1) && Placed(trunk[j].hash);
        TrunkWorkGrows(i, j - 1);
      }
    }

    // ---------------------------------------------------------------- work

    /** The work of a branch block is its own and its ancestors' down to the trunk, and the trunk's there. */
    method AccumulatedWork(b: Block) returns (sum: nat)
      requires Valid() && Has(b)
      ensures sum == Total(b)
    {
      var h := Height(b);
      assert Placed(b.hash);
      if h < 0 {
        sum := Work(b);
        var i := Advance(At(b), -1);
        StepIsParent(b);
        while Height(i.block) < 0
          invariant i.At? && Has(i.block) && sum + Total(i.block) == Total(b)
          decreases Magnitude(Height(i.block))
        {
          assert Placed(i.block.hash);
          sum := sum + Work(i.block);
          StepIsParent(i.block);
          i := Advance(i, -1);
        }
        assert Placed(i.block.hash) && OnTrunk(Height(i.block));
        sum := sum + accWork[Height(i.block)];
      } else {
        assert OnTrunk(h);
        sum := accWork[h];
      }
    }

    // ---------------------------------------------------------------- reorganising

    /** The same blocks as before, at the same distances from the root. */
    twostate predicate SameTree()
      requires old(Valid())
      reads this
    {
      && blocks == old(blocks) && heights.Keys == old(heights).Keys
      && forall h {:trigger heights[h]} | h in heights :: Magnitude(heights[h]) == Magnitude(old(heights)[h])
    }

    /** Take the top off the trunk and make a branch of it. */
    method Demote(k: nat) returns (deleted: seq<BlockHash>)
      requires Valid() && k < |trunk|
      modifies this
      ensures Valid() && SameTree()
      ensures trunk == old(trunk[..k + 1]) && accWork == old(accWork[..k + 1])
      ensures |deleted| == |old(trunk)| - k - 1 && forall i {:trigger deleted[i]} | 0 <= i < |deleted| :: deleted[i] == old(trunk[k + 1 + i].hash)
      ensures forall h {:trigger h in old(branches)} {:trigger h in branches} | h in old(branches) :: h in branches && h in heights && heights[h] == old(heights)[h]
    {
      deleted := [];
      var i := k + 1;
      while i < |trunk|
        invariant k + 1 <= i <= |trunk| && trunk == old(trunk) && heights == old(heights) && accWork == old(accWork) && blocks == old(blocks)
        invariant |deleted| == i - k - 1 && forall j {:trigger deleted[j]} | 0 <= j < |deleted| :: deleted[j] == trunk[k + 1 + j].hash
        invariant forall h {:trigger h in branches} :: h in branches <==> h in old(branches) || (h in heights && k < heights[h] < i)
        invariant forall h {:trigger branches[h]} | h in branches :: h in blocks && branches[h] == blocks[h]
      {
        assert old(OnTrunk(i));
        assert OnTrunk(i);
        assert forall h {:trigger heights[h]} | h in heights && heights[h] == i :: h == trunk[i].hash by {
          HeightIsIndex(i);
        }
        deleted := deleted + [trunk[i].hash];
        branches := branches[trunk[i].hash := trunk[i]];
        i := i + 1;
      }
      trunk := trunk[..k + 1];
      accWork := accWork[..k + 1];
      assert forall j {:trigger deleted[j]} | 0 <= j < |deleted| :: old(OnTrunk(k + 1 + j));
      assert forall h {:trigger heights[h]} | h in heights && heights[h] > k :: heights[h] <= k + |deleted| && deleted[heights[h] - k - 1] == h by {
        forall h | h in heights && heights[h] > k
          ensures heights[h] <= k + |deleted| && deleted[heights[h] - k - 1] == h
        {
          assert old(Placed(h));
        }
      }
      Flip(deleted, k);
      DemotedIsValid(k);
    }

    /** Only one block has a given height on the trunk. */
    twostate lemma HeightIsIndex(new i: nat)
      requires old(Valid()) && trunk == old(trunk) && heights == old(heights) && blocks == old(blocks) && i < |trunk|
      ensures forall h {:trigger heights[h]} | h in heights && heights[h] == i :: h == trunk[i].hash
    {
      forall h | h in heights && heights[h] == i
        ensures h == trunk[i].hash
      {
        assert old(Placed(h));
      }
    }

    /** Turn the signs of the heights of what has been taken off the trunk. */
    method Flip(deleted: seq<BlockHash>, k: nat)
      requires forall i {:trigger deleted[i]} | 0 <= i < |deleted| :: deleted[i] in heights && heights[deleted[i]] == k + 1 + i
      requires forall h {:trigger heights[h]} | h in heights && heights[h] > k :: heights[h] <= k + |deleted| && deleted[heights[h] - k - 1] == h
      modifies this`heights
      ensures heights.Keys == old(heights.Keys)
      ensures forall h {:trigger heights[h]} | h in heights :: heights[h] == if old(heights[h]) > k then -old(heights[h]) else old(heights[h])
    {
      var i := 0;
      while i < |deleted|
        invariant 0 <= i <= |deleted| && heights.Keys == old(heights.Keys)
        invariant forall h {:trigger heights[h]} | h in heights ::
          heights[h] == if k < old(heights[h]) <= k + i then -old(heights[h]) else old(heights[h])
      {
        heights := heights[deleted[i] := -heights[deleted[i]]];
        i := i + 1;
      }
    }

    twostate lemma DemotedIsValid(new k: nat)
      requires old(Valid()) && k < |old(trunk)| && trunk == old(trunk)[..k + 1] && accWork == old(accWork)[..k + 1]
      requires blocks == old(blocks) && heights.Keys == old(heights).Keys
      requires forall h {:trigger heights[h]} | h in heights :: heights[h] == if old(heights)[h] > k then -old(heights)[h] else old(heights)[h]
      requires forall h {:trigger h in branches} :: h in branches <==> h in old(branches) || (h in old(heights) && old(heights)[h] > k)
      requires forall h {:trigger branches[h]} | h in branches :: h in blocks && branches[h] == blocks[h]
      ensures Valid() && SameTree()
      ensures forall h {:trigger h in old(branches)} {:trigger h in branches} | h in old(branches) :: h in branches && h in heights && heights[h] == old(heights)[h]
    {
      forall i | 0 <= i < |trunk|
        ensures OnTrunk(i)
      {
        assert old(OnTrunk(i));
      }
      forall h | h in old(branches)
        ensures h in branches && h in heights && heights[h] == old(heights)[h]
      {
        assert old(Placed(h));
      }
      forall h | h in blocks
        ensures Placed(h)
      {
        assert old(Placed(h));
        if old(heights)[h] > 0 {
          assert old(OnTrunk(heights[h] - 1));
        }
      }
      assert forall i {:trigger accWork[i]} | 0 <= i < |trunk| :: accWork[i] == old(accWork[i]);
    }

    method MoveUp(h: BlockHash)
      requires Valid() && trunk != [] && h in branches && branches[h].prev == trunk[|trunk| - 1].hash
      modifies this
      ensures Promoted(h, old(branches[h]))
    {
      var b := branches[h];
      trunk := trunk + [b];
      heights := heights[h := -heights[h]];
      accWork := accWork + [accWork[|accWork| - 1] + Work(b)];
      branches := branches - {h};
    }

    /** Move a branch block that sits on the tip onto the trunk. */
    method Promote(h: BlockHash)
      requires Valid() && trunk != [] && h in branches && branches[h].prev == trunk[|trunk| - 1].hash
      modifies this
      ensures Valid() && SameTree() && Promoted(h, old(branches[h]))
    {
      MoveUp(h);
      PromotedIsValid(h, old(branches[h]));
    }

    /** What promoting a block leaves in place. */
    twostate predicate Promoted(new h: BlockHash, new b: Block)
      reads this
    {
      && blocks == old(blocks) && old(|accWork| == |trunk| > 0) && h in old(branches) && b == old(branches)[h]
      && b.prev == old(trunk)[|old(trunk)| - 1].hash && h in old(heights)
      && trunk == old(trunk) + [b] && heights == old(heights)[h := -old(heights)[h]] && branches == old(branches) - {h}
      && accWork == old(accWork) + [old(accWork)[|old(trunk)| - 1] + Work(b)]
    }

    /** The promoted block comes to sit right above the old tip. */
    twostate lemma PromotedHeight(new h: BlockHash, new b: Block)
      requires old(Valid()) && Promoted(h, b)
      ensures b == blocks[h] && b.hash == h && heights[h] == |trunk| - 1 && h in blocks
      ensures |trunk| >= 2 && b.prev in old(heights) && old(heights)[b.prev] == |trunk| - 2
    {
      assert old(OnTrunk(|trunk| - 1)) && old(Placed(h)) && old(Placed(b.prev));
    }

    twostate lemma PromotedPlaced(new h: BlockHash, new b: Block, new x: BlockHash)
      requires old(Valid()) && Promoted(h, b) && x in blocks
      ensures Placed(x)
    {
      PromotedHeight(h, b);
      assert old(Placed(x));
      if x != h && heights[x] != 0 {
        assert old(Placed(blocks[x].prev));
      }
    }

    twostate lemma PromotedOnTrunk(new h: BlockHash, new b: Block, new i: nat)
      requires old(Valid()) && Promoted(h, b) && i < |trunk|
      ensures OnTrunk(i) && accWork[i] == WorkBelow(blocks, trunk[i], i)
    {
      PromotedHeight(h, b);
      if i < |trunk| - 1 {
        assert old(OnTrunk(i));
        assert accWork[i] == old(accWork)[i];
      } else {
        assert old(OnTrunk(i - 1));
        assert accWork[i - 1] == old(accWork)[i - 1];
      }
    }

    twostate lemma PromotedIsLinked(new h: BlockHash, new b: Block)
      requires old(Valid()) && Promoted(h, b)
      ensures Linked()
    {
      PromotedHeight(h, b);
      forall i | 0 <= i < |trunk|
        ensures OnTrunk(i)
      {
        PromotedOnTrunk(h, b, i);
      }
      forall x | x in blocks
        ensures Placed(x)
      {
        PromotedPlaced(h, b, x);
      }
    }

    twostate lemma PromotedIsValid(new h: BlockHash, new b: Block)
      requires old(Valid()) && Promoted(h, b)
      ensures Valid() && SameTree()
    {
      PromotedIsLinked(h, b);
      forall i | 0 <= i < |trunk|
        ensures accWork[i] == WorkBelow(blocks, trunk[i], i)
      {
        PromotedOnTrunk(h, b, i);
      }
    }

    // ---------------------------------------------------------------- a new block

    /** A block that can be added: it is not there yet, and nothing has been waiting for it. */
    ghost predicate Fresh(ref: Block)
      reads `blocks, `trunk
    {
      ref.hash !in blocks && ref.prev in blocks && trunk != [] && trunk[0].prev != ref.hash
    }

    /** What adding a block leaves in place. */
    twostate predicate Added(new ref: Block, new height: int)
      reads this
    {
      && old(Valid() && Fresh(ref)) && blocks == old(blocks)[ref.hash := ref]
      && heights == old(heights)[ref.hash := height] && height != 0
      && Magnitude(height) == Magnitude(old(heights)[ref.prev]) + 1
      && (height > 0 ==> trunk == old(trunk) + [ref] && height == |old(trunk)| && branches == old(branches) && ref.prev == old(trunk)[height - 1].hash)
      && (height < 0 ==> trunk == old(trunk) && branches == old(branches)[ref.hash := ref])
    }

    twostate lemma AddedIsLinked(new ref: Block, new height: int)
      requires ref.prev in old(heights) && Added(ref, height)
      ensures Linked()
    {
      forall i | 0 <= i < |trunk|
        ensures OnTrunk(i)
      {
        assert i < |old(trunk)| ==> old(OnTrunk(i));
      }
      assert old(Placed(ref.prev));
      forall h | h in blocks
        ensures Placed(h)
      {
        if h != ref.hash {
          assert old(Placed(h)) && old(OnTrunk(0));
        }
      }
    }

    /** Everyone keeps the work behind him, and the new block has its parent's and its own. */
    twostate lemma AddedKeepsTotals(new ref: Block, new height: int, new b: Block)
      requires old(Valid()) && Valid() && ref.prev in old(heights) && Added(ref, height) && old(Has(b))
      ensures Has(b) && Total(b) == old(Total(b))
    {
      assert old(Placed(b.hash)) && Placed(b.hash);
      UpOfOld(b);
      SameBelow(old(blocks), ref, b, Magnitude(heights[b.hash]));
    }

    twostate lemma UpOfOld(new b: Block)
      requires old(Valid()) && old(Has(b))
      ensures b.hash in old(heights) && Up(old(blocks), b, Magnitude(old(heights)[b.hash])).At?
      decreases if b.hash in old(heights) then Magnitude(old(heights)[b.hash]) else 0
    {
      assert old(Placed(b.hash));
      if old(heights)[b.hash] != 0 {
        assert old(Placed(b.prev));
        UpOfOld(old(blocks)[b.prev]);
      }
    }

    twostate lemma AddedTotal(new ref: Block, new height: int)
      requires old(Valid()) && Valid() && ref.prev in old(heights) && ref.prev in old(blocks) && Added(ref, height)
      ensures Has(ref) && old(Placed(ref.prev)) && Total(ref) == old(Total(blocks[ref.prev])) + Work(ref)
    {
      assert old(Placed(ref.prev)) && Placed(ref.hash) && Placed(ref.prev);
      AddedKeepsTotals(ref, height, old(blocks)[ref.prev]);
    }

    twostate lemma AddedWork(new ref: Block, new height: int)
      requires ref.prev in old(heights) && Added(ref, height) && Linked()
      requires accWork == if height < 0 then old(accWork) else old(accWork) + [old(accWork)[height - 1] + Work(ref)]
      ensures Valid()
    {
      forall i | 0 <= i < |trunk|
        ensures accWork[i] == WorkBelow(blocks, trunk[i], i)
      {
        assert OnTrunk(i);
        if i < |old(trunk)| {
          assert old(OnTrunk(i)) && accWork[i] == old(accWork)[i];
          UpOfOld(trunk[i]);
          SameBelow(old(blocks), ref, trunk[i], i);
        } else {
          assert old(OnTrunk(i - 1)) && accWork[i - 1] == old(accWork)[i - 1];
          UpOfOld(trunk[i - 1]);
          SameBelow(old(blocks), ref, trunk[i - 1], i - 1);
        }
      }
    }

    /** A new block on the tip of the trunk. */
    method Append(ref: Block, work: nat)
      requires Valid() && Fresh(ref) && ref.prev == trunk[|trunk| - 1].hash
      requires work == accWork[|trunk| - 1] + Work(ref)
      modifies this
      ensures Valid() && Added(ref, |old(trunk)|) && accWork == old(accWork) + [work]
    {
      assert OnTrunk(|trunk| - 1) && Placed(ref.prev);
      ghost var height := |trunk|;
      heights := heights[ref.hash := |trunk|];
      trunk := trunk + [ref];
      accWork := accWork + [work];
      blocks := blocks[ref.hash := ref];
      AddedIsLinked(ref, height);
      AddedWork(ref, height);
    }

    /** A new block on a branch, or the first of one. */
    method AddBranch(ref: Block, blk: Block)
      requires Valid() && Fresh(ref) && Has(blk) && blk.hash == ref.prev
      modifies this
      ensures Valid() && Added(ref, -(Magnitude(old(Height(blk))) as int) - 1) && trunk == old(trunk) && accWork == old(accWork)
    {
      assert Placed(ref.prev);
      ghost var height := -(Magnitude(Height(blk)) as int) - 1;
      var h := Height(blk);
      branches := branches[ref.hash := ref];
      heights := heights[ref.hash := -(Magnitude(h) as int) - 1];
      blocks := blocks[ref.hash := ref];
      AddedIsLinked(ref, height);
      AddedWork(ref, height);
    }

    /** A way down a branch: its blocks from b on, and the trunk block it leads to. */
    ghost predicate Leads(b: Block, way: seq<BlockHash>, root: Block)
      reads `blocks
    {
      && Up(blocks, b, |way|) == At(root)
      && forall i {:trigger way[i]} | 0 <= i < |way| :: way[i] in blocks && Up(blocks, b, i) == At(blocks[way[i]])
    }

    /** Walk down from a block to the trunk, noting the branch blocks met. */
    method Collect(b: Block) returns (way: seq<BlockHash>, root: Block)
      requires Valid() && Has(b)
      ensures Has(root) && Height(root) >= 0 && Leads(b, way, root)
      ensures |way| + Height(root) == Magnitude(Height(b))
      ensures Waiting(way, |way|, Magnitude(Height(b)))
    {
      way, root := [], b;
      while Height(root) < 0
        invariant Has(root) && Leads(b, way, root) && |way| + Magnitude(Height(root)) == Magnitude(Height(b))
        invariant Waiting(way, |way|, Magnitude(Height(b)))
        decreases Magnitude(Height(root))
      {
        assert Placed(root.hash);
        StepIsParent(root);
        UpTwice(blocks, b, |way|, 1);
        way := way + [root.hash];
        var i := Advance(At(root), -1);
        root := i.block;
      }
    }

    /** The next branch block on the way back up sits on the tip of the trunk. */
    lemma SitsOnTip(b: Block, h: BlockHash, j: nat)
      requires Valid() && trunk != [] && h in branches
      requires Up(blocks, b, j) == At(blocks[h]) && Up(blocks, b, j + 1) == At(trunk[|trunk| - 1])
      ensures branches[h].prev == trunk[|trunk| - 1].hash
    {
      UpTwice(blocks, b, j, 1);
      assert Placed(h) && OnTrunk(|trunk| - 1);
      ParentIs(blocks[h], trunk[|trunk| - 1]);
    }

    lemma ParentIs(b: Block, p: Block)
      requires Valid() && Has(b) && Up(blocks, b, 1) == At(p)
      ensures b.prev == p.hash
    {
      assert Placed(b.hash) && Placed(b.prev);
      assert Up(blocks, blocks[b.prev], 0) == At(blocks[b.prev]);
    }

    /** The first j blocks of a way are still on their branch. */
    ghost predicate Waiting(way: seq<BlockHash>, j: nat, depth: int)
      requires j <= |way|
      reads `branches, `heights
    {
      forall i {:trigger way[i]} | 0 <= i < j :: way[i] in branches && way[i] in heights && heights[way[i]] == i - depth
    }

    twostate lemma StillWaiting(new way: seq<BlockHash>, new j: nat, new depth: int)
      requires j < |way| && old(Waiting(way, j + 1, depth)) && way[j] in old(branches) && Promoted(way[j], old(branches[way[j]]))
      ensures Waiting(way, j, depth)
    {
    }

    /** The blocks of a way from j on are on the trunk, the lowest at place base. */
    ghost predicate Raised(way: seq<BlockHash>, j: nat, base: nat)
      requires j <= |way|
      reads `trunk, `blocks
    {
      && |trunk| == base + |way| - j
      && forall i {:trigger way[i]} | j <= i < |way| :: way[i] in blocks && trunk[base + |way| - 1 - i] == blocks[way[i]]
    }

    method RaiseOne(way: seq<BlockHash>, j: nat, ghost base: nat)
      requires Valid() && trunk != [] && j < |way| && way[j] in branches && branches[way[j]].prev == trunk[|trunk| - 1].hash
      requires Waiting(way, j + 1, |way| + base - 1) && Raised(way, j + 1, base)
      modifies this
      ensures Valid() && SameTree() && Waiting(way, j, |way| + base - 1) && Raised(way, j, base)
      ensures trunk == old(trunk) + [blocks[way[j]]]
    {
      Promote(way[j]);
      StillWaiting(way, j, |way| + base - 1);
    }

    /** Put a branch onto the trunk that ends where the branch begins, from its lowest block up. */
    method Raise(b: Block, way: seq<BlockHash>, root: Block)
      requires Valid() && Has(b) && Has(root) && Leads(b, way, root) && trunk != [] && trunk[|trunk| - 1] == root
      requires Waiting(way, |way|, |way| + |trunk| - 1)
      modifies this
      ensures Valid() && SameTree() && Raised(way, 0, |old(trunk)|)
      ensures trunk[..|old(trunk)|] == old(trunk) && trunk[|trunk| - 1] == b
    {
      var j := |way|;
      ghost var base := |trunk|;
      while j > 0
        invariant 0 <= j <= |way| && Valid() && SameTree()
        invariant Waiting(way, j, |way| + base - 1) && Raised(way, j, base) && trunk[..base] == old(trunk)
        invariant Up(blocks, b, j) == At(trunk[|trunk| - 1])
      {
        j := j - 1;
        SitsOnTip(b, way[j], j);
        RaiseOne(way, j, base);
      }
      assert Up(blocks, b, 0) == At(b);
    }

    /** Every block keeps the work behind it. */
    twostate predicate KeepsTotals()
      requires old(Valid()) && Valid()
      reads this
    {
      forall b {:trigger Has(b)} | old(Has(b)) :: Has(b) && Total(b) == old(Total(b))
    }

    twostate lemma SameTotals()
      requires old(Valid()) && Valid() && SameTree()
      ensures KeepsTotals()
    {
      forall b | old(Has(b))
        ensures Has(b) && Total(b) == old(Total(b))
      {
        assert old(Placed(b.hash)) && Placed(b.hash);
      }
    }

    /** At the tip the accumulated work is the tip's. */
    lemma TipWork()
      requires Valid() && trunk != []
      ensures Has(trunk[|trunk| - 1]) && accWork[|trunk| - 1] == Total(trunk[|trunk| - 1])
    {
      assert OnTrunk(|trunk| - 1) && Placed(trunk[|trunk| - 1].hash);
    }

    /** How the trunk has changed: some hashes taken off its top, others put on, the new tip first. */
    static ghost predicate Moved(was: seq<Block>, now: seq<Block>, deleted: seq<BlockHash>, inserted: seq<BlockHash>) {
      var kept := |was| - |deleted|;
      && 0 < kept && |now| == kept + |inserted| && now[..kept] == was[..kept]
      && (forall i {:trigger deleted[i]} | 0 <= i < |deleted| :: deleted[i] == was[kept + i].hash)
      && (forall i {:trigger inserted[i]} | 0 <= i < |inserted| :: inserted[i] == now[|now| - 1 - i].hash)
    }

    /** Make the branch that ends in b the trunk. */
    method Reorganise(b: Block) returns (deleted: seq<BlockHash>, inserted: seq<BlockHash>)
      requires Valid() && Has(b) && trunk != []
      modifies this
      ensures Valid() && SameTree() && Moved(old(trunk), trunk, deleted, inserted) && trunk[|trunk| - 1] == b && trunk[0] == old(trunk[0])
    {
      var root;
      inserted, root := Collect(b);
      var k := Height(root);
      assert Placed(root.hash) && OnTrunk(k);
      deleted := Demote(k);
      assert trunk[|trunk| - 1] == root;
      ghost var base := trunk;
      Raise(b, inserted, root);
      assert trunk[..k + 1] == base;
      forall i | 0 <= i < |inserted|
        ensures inserted[i] == trunk[|trunk| - 1 - i].hash
      {
        assert Placed(inserted[i]);
      }
      assert trunk[0] == base[0];
    }

    /** One more block on the tip moves the trunk one further. */
    twostate lemma MovedFurther(new turned: seq<Block>, new deleted: seq<BlockHash>, new way: seq<BlockHash>, new ref: Block)
      requires trunk == turned + [ref]
      requires var kept := |old(trunk)| - |deleted|;
        && 0 < kept && |turned| == kept + |way| && turned[..kept] == old(trunk)[..kept]
        && (forall i {:trigger deleted[i]} | 0 <= i < |deleted| :: deleted[i] == old(trunk)[kept + i].hash)
        && (forall i {:trigger way[i]} | 0 <= i < |way| :: way[i] == turned[|turned| - 1 - i].hash)
      ensures Moved(old(trunk), trunk, deleted, [ref.hash] + way)
    {
      var kept, inserted := |old(trunk)| - |deleted|, [ref.hash] + way;
      assert trunk[..kept] == turned[..kept];
      forall i | 0 <= i < |inserted|
        ensures inserted[i] == trunk[|trunk| - 1 - i].hash
      {
        assert i > 0 ==> inserted[i] == way[i - 1];
      }
    }

    /** A block that makes its branch the best becomes the tip of the trunk. */
    method Extend(ref: Block, blk: Block, work: nat) returns (deleted: seq<BlockHash>, inserted: seq<BlockHash>)
      requires Valid() && Best() && Fresh(ref) && Has(blk) && blk.hash == ref.prev
      requires work == Total(blk) + Work(ref) && work > accWork[|trunk| - 1]
      modifies this
      ensures Valid() && Best() && Has(ref) && blocks == old(blocks)[ref.hash := ref]
      ensures KeepsTotals()
      ensures Moved(old(trunk), trunk, deleted, inserted) && trunk[|trunk| - 1] == ref && Total(ref) == work
    {
      var way;
      deleted, way := Reorganise(blk);
      ghost var turned := trunk;
      SameTotals();
      TipWork();
      label Turned:
      Top(ref, work);
      inserted := [ref.hash] + way;
      MovedFurther(turned, deleted, way, ref);
      assert KeepsTotals() by {
        forall b | old(Has(b))
          ensures Has(b) && Total(b) == old(Total(b))
        {
          assert old@Turned(Has(b)) && Has(b);
        }
      }
      BestSoFar(ref);
    }

    /** A new tip, with everyone's work in order. */
    method Top(ref: Block, work: nat)
      requires Valid() && Fresh(ref) && ref.prev == trunk[|trunk| - 1].hash
      requires work == accWork[|trunk| - 1] + Work(ref)
      modifies this
      ensures Valid() && KeepsTotals() && Has(ref) && blocks == old(blocks)[ref.hash := ref]
      ensures trunk == old(trunk) + [ref] && accWork == old(accWork) + [work] && Total(ref) == work
    {
      ghost var height := |trunk|;
      TipWork();
      assert Placed(ref.prev);
      Append(ref, work);
      AddedTotal(ref, height);
      AllKeepTotals(ref, height);
    }

    twostate lemma AllKeepTotals(new ref: Block, new height: int)
      requires old(Valid()) && Valid() && ref.prev in old(heights) && Added(ref, height)
      ensures KeepsTotals()
    {
      forall b | old(Has(b))
        ensures Has(b) && Total(b) == old(Total(b))
      {
        AddedKeepsTotals(ref, height, b);
      }
    }

    /** The tip is the best when every other block was no better than an earlier, lesser tip. */
    twostate lemma BestSoFar(new ref: Block)
      requires old(Valid()) && old(Best()) && Valid() && trunk != [] && Has(ref) && blocks == old(blocks)[ref.hash := ref]
      requires Total(ref) == accWork[|trunk| - 1] > old(accWork[|trunk| - 1])
      requires KeepsTotals()
      ensures Best()
    {
      forall b | Has(b)
        ensures Total(b) <= accWork[|trunk| - 1]
      {
        assert b == ref || old(Has(b));
      }
    }

    /** A block that nobody has been waiting for changes nobody's ancestors. */
    lemma NobodyWaits(ref: Block)
      requires Valid() && trunk != [] && ref.hash !in blocks && trunk[0].prev != ref.hash
      ensures SameAncestors(blocks, blocks) && SameAncestors(blocks, blocks[ref.hash := ref])
    {
      forall h | h in blocks
        ensures blocks[h].prev != ref.hash
      {
        assert Placed(h) && OnTrunk(0);
      }
      AncestorsStay(blocks, ref);
    }

    /** Add a block. When it makes its branch the one with the most work, that branch becomes the trunk;
        otherwise, on a tie too, the trunk stays. Either way the tree is in order, the same blocks have the
        same ancestors and the same work behind them, and nothing has more work than the tip. */
    method Insert(ref: Block) returns (connected: bool, deleted: seq<BlockHash>, inserted: seq<BlockHash>)
      requires Valid() && Best() && ref.hash !in blocks && trunk[0].prev != ref.hash
      modifies this
      ensures connected <==> ref.prev in old(blocks)
      ensures !connected ==> unchanged(this)
      ensures connected ==> Valid() && Best() && Has(ref) && blocks == old(blocks)[ref.hash := ref]
      ensures connected ==> KeepsTotals()
      ensures SameAncestors(old(blocks), blocks)
      ensures connected ==> Moved(old(trunk), trunk, deleted, inserted)
      ensures connected ==> if Total(ref) > old(accWork[|trunk| - 1])
        then trunk[|trunk| - 1] == ref else trunk == old(trunk) && ref.hash in branches
      ensures ref.prev == old(trunk[|trunk| - 1].hash) && 0 < Target(ref.bits) < HASHES ==> connected && trunk[|trunk| - 1] == ref
    {
      ghost var was, best := trunk, accWork[|trunk| - 1];
      connected, deleted, inserted := true, [], [];
      NobodyWaits(ref);
      var i, acc := FindParent(ref.prev);
      if i.End? {
        connected := false;
        return;
      }
      OrdinaryWork(ref);
      deleted, inserted := Place(ref, i.block, acc + Work(ref), was, best);
    }

    /** The block to put another one on, and the work behind it. */
    method FindParent(prev: BlockHash) returns (i: Iterator, acc: nat)
      requires Valid()
      ensures i.At? <==> prev in blocks
      ensures i.At? ==> Has(i.block) && i.block.hash == prev && acc == Total(i.block)
      ensures trunk != [] && prev == trunk[|trunk| - 1].hash ==> i.At? && acc == accWork[|trunk| - 1]
    {
      if trunk != [] {
        TipWork();
      }
      acc := 0;
      i := Find(prev);
      if i.At? {
        acc := AccumulatedWork(i.block);
      }
    }

    /** Put a block on the trunk or on a branch, by the work it makes. */
    method Place(ref: Block, blk: Block, work: nat, ghost was: seq<Block>, ghost best: nat)
      returns (deleted: seq<BlockHash>, inserted: seq<BlockHash>)
      requires Valid() && Best() && Fresh(ref) && Has(blk) && blk.hash == ref.prev && work == Total(blk) + Work(ref)
      requires was == trunk && best == accWork[|trunk| - 1]
      modifies this
      ensures Valid() && Best() && Has(ref) && blocks == old(blocks)[ref.hash := ref] && Total(ref) == work
      ensures KeepsTotals()
      ensures Moved(was, trunk, deleted, inserted)
      ensures if work > best then trunk[|trunk| - 1] == ref else trunk == was && ref.hash in branches
    {
      if work > accWork[|accWork| - 1] {
        deleted, inserted := Extend(ref, blk, work);
      } else {
        Branch(ref, blk, work);
        deleted, inserted := [], [];
      }
    }

    /** A block that does not make its branch the best goes on the branch. */
    method Branch(ref: Block, blk: Block, ghost work: nat)
      requires Valid() && Best() && Fresh(ref) && Has(blk) && blk.hash == ref.prev
      requires work == Total(blk) + Work(ref) && work <= accWork[|trunk| - 1]
      modifies this
      ensures Valid() && Best() && Has(ref) && blocks == old(blocks)[ref.hash := ref]
      ensures KeepsTotals()
      ensures trunk == old(trunk) && accWork == old(accWork) && ref.hash in branches && Total(ref) == work && Moved(old(trunk), trunk, [], [])
    {
      assert Placed(ref.prev);
      AddBranch(ref, blk);
      ghost var height := heights[ref.hash];
      AddedTotal(ref, height);
      TotalsAfter(ref, height);
    }

    /** Every old block keeps its work; the new one decides whether the tip is still the best. */
    twostate lemma TotalsAfter(new ref: Block, new height: int)
      requires old(Valid()) && Valid() && old(Best()) && ref.prev in old(heights) && ref.prev in old(blocks) && Added(ref, height)
      requires trunk != [] && old(accWork[|trunk| - 1]) <= accWork[|trunk| - 1] && Has(ref) && Total(ref) <= accWork[|trunk| - 1]
      ensures Best() && KeepsTotals()
    {
      AllKeepTotals(ref, height);
      forall b | Has(b)
        ensures Total(b) <= accWork[|trunk| - 1]
      {
        assert b == ref || old(Has(b));
      }
    }
  }
}

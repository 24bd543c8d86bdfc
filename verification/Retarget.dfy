/** The example chain's retarget rule: a new target from the time the last interval took. */
module Retarget {
  import opened BlockTrees
  import opened Compact
  import opened Mpi
  import opened Words

  /** The easiest target: 2 to the 236, less one. */
  const LIMIT: nat := 0xFFFFFFFFFFFFFFFFFFFFFFFFFFFFFFFFFFFFFFFFFFFFFFFFFFFFFFFFFFF

  const TIMESPAN := 7200
  const SPACING := 60
  const INTERVAL := TIMESPAN / SPACING

  /** Division that drops the fraction, whatever the sign. */
  function Quotient(n: int, d: nat): int
    requires d > 0
  {
    if n < 0 then -((-n) / d) else n / d
  }

  /** The time an interval took, kept within a factor of four of what it should take. */
  function Clamped(span: int): (s: nat)
    ensures TIMESPAN / 4 <= s <= TIMESPAN * 4
  {
    if span < TIMESPAN / 4 then TIMESPAN / 4 else if span > TIMESPAN * 4 then TIMESPAN * 4 else span
  }

  /** The new target before it is packed. */
  function NewTarget(limit: nat, target: int, span: int): int {
    var t := Quotient(target * Clamped(span), TIMESPAN);
    if t > limit then limit else t
  }

  /** The range test that a block's bits have to pass. */
  predicate InRange(limit: nat, bits: Bits) {
    0 < Target(bits) <= limit
  }

  /** The arithmetic of the rule, step by step. */
  method Rescale(limit: nat, target: int, span: int) returns (bits: int)
    ensures bits == Compacted(NewTarget(limit, target, span))
  {
    var nActualTimespan := span;
    if nActualTimespan < TIMESPAN / 4 {
      nActualTimespan := TIMESPAN / 4;
    }
    if nActualTimespan > TIMESPAN * 4 {
      nActualTimespan := TIMESPAN * 4;
    }
    var bnNew := target * nActualTimespan;
    bnNew := Quotient(bnNew, TIMESPAN);
    if bnNew > limit {
      bnNew := limit;
    }
    return Compacted(bnNew);
  }

  /** The n-th ancestor; where there are not enough of them, the place where the branch leaves the trunk. */
  ghost function Former(tree: BlockTree, blk: Block, n: nat): (f: Block)
    requires tree.Valid() && tree.Has(blk)
    reads tree
  {
    tree.UpReaches(blk, n);
    if n <= Magnitude(tree.Height(blk)) then Up(tree.blocks, blk, n).block else tree.Fork(blk)
  }

  /** The time since the ancestor at the other end of the interval. */
  ghost function Span(tree: BlockTree, blk: Block, n: nat): int
    requires tree.Valid() && tree.Has(blk)
    reads tree
  {
    blk.time - Former(tree, blk, n).time
  }

  /** The bits that the block after blk must have. */
  ghost function NextBits(limit: nat, tree: BlockTree, blk: Block): int
    requires tree.Valid() && tree.Has(blk)
    reads tree
  {
    var h := tree.Height(blk);
    if h == 0 then Compacted(limit)
    else if (h + 1) % INTERVAL != 0 then ToInt32(blk.bits)
    else Compacted(NewTarget(limit, Target(blk.bits), Span(tree, blk, INTERVAL - 1)))
  }

  method StepBack(tree: BlockTree, blk: Block, n: nat) returns (former: Block)
    requires tree.Valid() && tree.Has(blk) && n > 0
    ensures former == Former(tree, blk, n)
  {
    var i := tree.Advance(At(blk), -(n as int));
    tree.UpReaches(blk, n);
    former := i.block;
  }

  method NextWorkRequired(limit: nat, tree: BlockTree, blk: Block) returns (bits: int)
    requires tree.Valid() && tree.Has(blk)
    ensures bits == NextBits(limit, tree, blk)
  {
    var h := tree.Height(blk);
    if h == 0 {
      return Compacted(limit);
    }
    if (h + 1) % INTERVAL != 0 {
      return ToInt32(blk.bits);
    }
    var former := StepBack(tree, blk, INTERVAL - 1);
    bits := Rescale(limit, Target(blk.bits), blk.time - former.time);
  }

  /** On the trunk, the block at the other end of the interval is exactly the n-th ancestor. */
  lemma FormerOnTrunk(tree: BlockTree, blk: Block, n: nat)
    requires tree.Valid() && tree.Has(blk) && n <= tree.Height(blk)
    ensures tree.Height(blk) < |tree.trunk|
    ensures Up(tree.blocks, blk, n) == At(Former(tree, blk, n)) && Former(tree, blk, n) == tree.trunk[tree.Height(blk) - n]
  {
    var h := tree.Height(blk);
    assert tree.Placed(blk.hash) && tree.OnTrunk(h);
    tree.UpOnTrunk(h, n);
  }

  /** At an adjustment height above the root there are always enough ancestors: 119 of them. */
  lemma EnoughAncestors(h: int)
    requires h > 0 && (h + 1) % INTERVAL == 0
    ensures INTERVAL == 120 && INTERVAL - 1 <= h
  {
  }

  // ------------------------------------------------------------------ bounds

  lemma SpanOnTrunk(tree: BlockTree, blk: Block, n: nat)
    requires tree.Valid() && tree.Has(blk) && n <= tree.Height(blk)
    ensures tree.Height(blk) < |tree.trunk| && Span(tree, blk, n) == blk.time - tree.trunk[tree.Height(blk) - n].time
  {
    FormerOnTrunk(tree, blk, n);
  }

  /** Before packing, the new target is within a factor of four of the old one. */
  lemma NewTargetBounds(limit: nat, target: nat, span: int)
    ensures 0 <= NewTarget(limit, target, span) <= limit && NewTarget(limit, target, span) <= 4 * target
    ensures NewTarget(limit, target, span) >= if target / 4 < limit then target / 4 else limit
    ensures limit > 0 ==> (NewTarget(limit, target, span) > 0 <==> target * Clamped(span) >= TIMESPAN)
  {
    var s := Clamped(span);
    Scaled(target, TIMESPAN / 4, s);
    Scaled(target, s, TIMESPAN * 4);
    QuotientGrows(target * (TIMESPAN / 4), target * s, TIMESPAN);
    QuotientGrows(target * s, target * (TIMESPAN * 4), TIMESPAN);
    assert target * 1800 / 7200 == target / 4 && target * 28800 / 7200 == 4 * target;
  }

  /** What the rule makes of a target. Within a factor of four the magnitude scales with the time, rounded
      down; faster it is a quarter of what it was, slower four times that. Above the limit it is the limit. */
  predicate Rescaled(limit: nat, target: int, span: int, m: nat, next: int) {
    var size: nat := if target < 0 then -target else target;
    && (span < 1800 ==> m == size / 4)
    && (1800 <= span <= 28800 ==> 7200 * m <= size * span < 7200 * (m + 1))
    && (span > 28800 ==> m == 4 * size)
    && (target < 0 ==> next == -(m as int))
    && (target >= 0 ==> next == if m > limit then limit else m)
  }

  lemma TargetIsRescaled(limit: nat, target: int, span: int) returns (m: nat)
    ensures Rescaled(limit, target, span, m, NewTarget(limit, target, span))
  {
    var size: nat := if target < 0 then -target else target;
    SignOfProduct(target, Clamped(span));
    m := size * Clamped(span) / 7200;
    RoundedDown(size * Clamped(span), m);
  }

  lemma SignOfProduct(a: int, b: nat)
    ensures a < 0 ==> a * b == -((-a) * b)
    ensures b > 0 && a < 0 ==> a * b < 0
    ensures a >= 0 ==> a * b >= 0
  {
  }

  lemma RoundedDown(n: nat, m: nat)
    requires m == n / 7200
    ensures 7200 * m <= n < 7200 * (m + 1)
  {
  }

  lemma QuotientGrows(a: nat, b: nat, d: nat)
    requires a <= b && d > 0
    ensures a / d <= b / d
  {
    var p, q := a / d, b / d;
    assert a == p * d + a % d && b == q * d + b % d;
    if p > q {
      Scaled(d, q + 1, p);
    }
  }

  /** What a target may become: at most the limit and four times what it was, at least the smaller of
      the limit and a quarter of it, up to one part in 2 to the 15, and in range unless it came out as zero. */
  predicate Bounded(limit: nat, target: nat, span: int, bits: int) {
    && 0 <= bits < 0x8000_0000
    && (InRange(limit, bits) <==> target * Clamped(span) >= TIMESPAN)
    && var t, low := Decompacted(bits), (if target / 4 < limit then target / 4 else limit);
       0 <= t <= limit && t <= 4 * target && 0x8000 * t >= 0x7fff * low && (t > 0 ==> 0x8000 * t > 0x7fff * low)
  }

  /** The retarget rule keeps its bounds through packing. From a positive target, what the next block's
      bits decode to is at most the limit and at most four times the old target, and at least the smaller
      of the limit and a quarter of it, up to one part in 2 to the 15; and it passes the range test unless
      the new target came out as zero. */
  lemma RetargetBounds(limit: nat, target: nat, span: int)
    requires limit > 0 && Compactable(limit) && target > 0
    ensures Bounded(limit, target, span, Compacted(NewTarget(limit, target, span)))
  {
    var m := NewTarget(limit, target, span);
    NewTargetBounds(limit, target, span);
    if m > 0 {
      SizeIsMonotone(m, limit);
      CompactRoundsDown(m);
    } else {
      NothingPacked();
    }
  }

  /** The bits are those of a rescaled target. */
  ghost predicate AdjustedTo(limit: nat, target: int, span: int, bits: int) {
    exists m, next :: Rescaled(limit, target, span, m, next) && bits == Compacted(next)
  }

  lemma BitsAreAdjusted(limit: nat, target: int, span: int, bits: int)
    requires bits == Compacted(NewTarget(limit, target, span))
    ensures AdjustedTo(limit, target, span, bits)
  {
    var m := TargetIsRescaled(limit, target, span);
  }

  lemma AdjustsTo(limit: nat, tree: BlockTree, blk: Block, n: nat, span: int, bits: int)
    requires tree.Valid() && tree.Has(blk) && n + 1 == 120 && span == Span(tree, blk, n) && bits == NextBits(limit, tree, blk)
    requires tree.Height(blk) != 0 && (tree.Height(blk) + 1) % 120 == 0
    ensures AdjustedTo(limit, Target(blk.bits), span, bits)
  {
    BitsAreAdjusted(limit, Target(blk.bits), span, bits);
  }

  /** The bits after any block: at height zero the limit's, at most heights the same again, and at every
      120th height those of the rescaled target, for the time since the 119th ancestor. */
  lemma NextBitsAre(limit: nat, tree: BlockTree, blk: Block, n: nat)
    requires tree.Valid() && tree.Has(blk) && n + 1 == 120
    ensures var h, bits := tree.Height(blk), NextBits(limit, tree, blk);
      if h == 0 then bits == Compacted(limit)
      else if (h + 1) % 120 != 0 then bits == if blk.bits < 0x8000_0000 then blk.bits else blk.bits - 0x1_0000_0000
      else AdjustedTo(limit, Target(blk.bits), blk.time - Former(tree, blk, n).time, bits)
  {
    var h, bits, span := tree.Height(blk), NextBits(limit, tree, blk), Span(tree, blk, n);
    if h != 0 && (h + 1) % 120 == 0 {
      AdjustsTo(limit, tree, blk, n, span, bits);
    }
  }

  /** On the trunk that ancestor is 119 places down. */
  lemma NextBitsOnTrunk(limit: nat, tree: BlockTree, blk: Block, n: nat) returns (former: Block, bits: int)
    requires tree.Valid() && tree.Has(blk) && n + 1 == 120
    requires tree.Height(blk) > 0 && (tree.Height(blk) + 1) % 120 == 0
    ensures n <= tree.Height(blk) < |tree.trunk| && former == tree.trunk[tree.Height(blk) - n]
    ensures bits == NextBits(limit, tree, blk) && AdjustedTo(limit, Target(blk.bits), blk.time - former.time, bits)
  {
    EnoughAncestors(tree.Height(blk));
    FormerOnTrunk(tree, blk, n);
    former, bits := Former(tree, blk, n), NextBits(limit, tree, blk);
    AdjustsTo(limit, tree, blk, n, blk.time - former.time, bits);
  }

  /** A trunk block at an adjustment height, with a positive target. */
  ghost predicate Adjusts(limit: nat, tree: BlockTree, blk: Block)
    requires tree.Valid() && tree.Has(blk)
    reads tree
  {
    tree.Height(blk) > 0 && (tree.Height(blk) + 1) % INTERVAL == 0 && limit > 0 && Compactable(limit) && Target(blk.bits) > 0
  }

  /** There the bits of the next block keep the bounds for the time since the 119th ancestor. */
  lemma NextBitsAreBounded(limit: nat, tree: BlockTree, blk: Block, n: nat)
    requires tree.Valid() && tree.Has(blk) && Adjusts(limit, tree, blk) && n + 1 == 120
    ensures n <= tree.Height(blk) < |tree.trunk|
    ensures Up(tree.blocks, blk, n) == At(tree.trunk[tree.Height(blk) - n])
    ensures Bounded(limit, Target(blk.bits), blk.time - tree.trunk[tree.Height(blk) - n].time, NextBits(limit, tree, blk))
  {
    EnoughAncestors(tree.Height(blk));
    FormerOnTrunk(tree, blk, n);
    SpanOnTrunk(tree, blk, n);
    AdjustedBits(limit, tree, blk, n, Target(blk.bits), Span(tree, blk, n), NextBits(limit, tree, blk));
  }

  lemma AdjustedBits(limit: nat, tree: BlockTree, blk: Block, n: nat, target: nat, span: int, bits: int)
    requires tree.Valid() && tree.Has(blk) && Adjusts(limit, tree, blk) && n == INTERVAL - 1
    requires target == Target(blk.bits) && span == Span(tree, blk, n) && bits == NextBits(limit, tree, blk)
    ensures Bounded(limit, target, span, bits)
  {
    assert bits == Compacted(NewTarget(limit, target, span));
    BitsAreBounded(limit, target, span, bits);
  }

  lemma BitsAreBounded(limit: nat, target: nat, span: int, bits: int)
    requires limit > 0 && Compactable(limit) && target > 0 && bits == Compacted(NewTarget(limit, target, span))
    ensures Bounded(limit, target, span, bits)
  {
    RetargetBounds(limit, target, span);
  }

  lemma NothingPacked()
    ensures Compacted(0) == 0 && Decompacted(0) == 0
  {
    assert ToMpi(0) == [];
    assert Payload(0) == [];
  }

  /** The range test: the sign bit of the int is clear, and the number is positive and not above the limit. */
  lemma RangeTest(limit: nat, bits: Bits)
    ensures InRange(limit, bits) <==> bits < 0x8000_0000 && 1 <= Decompacted(bits) <= limit
  {
  }

  lemma LimitIsPow2(n: nat)
    requires n == 236
    ensures LIMIT + 1 == Pow2(n)
  {
    HashesArePow2(n + 20);
    DoubledIsProduct(1, n);
    DoubledIsProduct(1, n + 20);
    DoubledTwice(1, n, 20);
    DoubledTwice(Doubled(1, n), 16, 4);
    DoubledByTwoBytes(Doubled(1, n));
    DoubledByNibble(Doubled(Doubled(1, n), 16));
  }

  /** The chain's own limit is one that the bounds hold for. */
  lemma LimitFits()
    ensures 0 < LIMIT && Compactable(LIMIT)
  {
    HashesAreCompactable(LIMIT);
  }
}

/** Namecoin's registration fee and the expiry of names. */
module Names {
  import opened Words

  const COIN := 100_000_000
  const START: nat := 50 * COIN

  /** From block 24000 on the fee runs four times as fast. */
  function Accelerated(height: int): int {
    if height >= 24000 then height + (height - 24000) * 3 else height
  }

  /** The fee falls in a straight line within every period of 8192, and halves from one to the next. */
  function FeeWithin(base: nat, part: nat): int {
    base - Halved(base, 14) * part
  }

  /** Counts for which the accelerated height still fits an int. */
  predicate Countable(count: int) {
    1 <= count && Accelerated(count - 1) < 0x8000_0000
  }

  function NetworkFee(count: int): int
    requires Countable(count)
  {
    var height: nat := Accelerated(count - 1);
    if height / 8192 >= 60 then 0 else FeeWithin(Halved(START, height / 8192), height % 8192)
  }

  /** Within a period the fee stays between the base and half of it. */
  lemma WithinPeriod(base: nat, part: nat)
    requires part < 8192
    ensures base / 2 <= FeeWithin(base, part) <= base
  {
    var step := Halved(base, 14);
    Halved14(base);
    Scaled(step, part, 8191);
    QuotientParts(base, step);
  }

  lemma Halved14(base: nat)
    ensures Halved(base, 14) == base / 16384
  {
    HalvedIsQuotient(base, 14);
    DoubledByNibble(1);
    DoubledTwice(1, 4, 4);
    DoubledTwice(1, 8, 4);
    DoubledByNibble(16);
    DoubledByNibble(256);
    assert Doubled(1, 12) == 4096;
    assert Doubled(1, 13) == 2 * Doubled(1, 12) && Doubled(1, 14) == 2 * Doubled(1, 13);
    DoubledIsProduct(1, 14);
  }

  lemma QuotientParts(base: nat, step: nat)
    requires step == base / 16384
    ensures base - 8191 * step >= base / 2
  {
  }

  lemma PartsFall(base: nat, part: nat, later: nat)
    requires part <= later
    ensures FeeWithin(base, later) <= FeeWithin(base, part)
  {
    Scaled(Halved(base, 14), part, later);
  }

  lemma {:induction false} HalvedFalls(x: nat, s: nat, t: nat)
    requires s <= t
    ensures Halved(x, t) <= Halved(x, s)
    decreases t
  {
    if s < t {
      HalvedFalls(x, s, t - 1);
    }
  }

  /** The fee is never negative and never above 50 coins. */
  lemma FeeIsBounded(count: int)
    requires Countable(count)
    ensures 0 <= NetworkFee(count) <= START
  {
    var height: nat := Accelerated(count - 1);
    WithinPeriod(Halved(START, height / 8192), height % 8192);
    HalvedFalls(START, 0, height / 8192);
  }

  /** The fee never rises: not within a period, not where it halves, not where it speeds up, and not
      where it is cut to nothing. */
  lemma FeeNeverRises(count: int, later: int)
    requires Countable(later) && 1 <= count <= later
    ensures Countable(count) && NetworkFee(later) <= NetworkFee(count)
  {
    var h: nat, h': nat := Accelerated(count - 1), Accelerated(later - 1);
    FeeIsBounded(count);
    var p, p' := h / 8192, h' / 8192;
    if p' < 60 {
      if p == p' {
        PartsFall(Halved(START, p), h % 8192, h' % 8192);
      } else {
        WithinPeriod(Halved(START, p), h % 8192);
        WithinPeriod(Halved(START, p'), h' % 8192);
        HalvedFalls(START, p + 1, p');
      }
    }
  }

  /** The fee in numbers: 50 coins halved once for every 8192 blocks, or for every 2048 from block 24000 on,
      less one part in 16384 of that, rounded down, for every one of these 8192 steps. */
  lemma FeeIs(count: int)
    requires Countable(count)
    ensures var h: nat := if count <= 24000 then count - 1 else 4 * (count - 1) - 72000;
      var base := 5_000_000_000 / Pow2(h / 8192);
      NetworkFee(count) == if h / 8192 >= 60 then 0 else base - base / 16384 * (h % 8192)
  {
    var h: nat := Accelerated(count - 1);
    HalvedIsQuotient(START, h / 8192);
    Halved14(Halved(START, h / 8192));
  }

  lemma FeeAt(count: int, halvings: nat, part: nat, base: nat, step: nat)
    requires 1 <= count <= 24001 && count - 1 == 8192 * halvings + part && part < 8192
    requires halvings < 3 && base == if halvings == 0 then 5_000_000_000 else if halvings == 1 then 2_500_000_000 else 1_250_000_000
    requires step == base / 16384
    ensures Countable(count) && NetworkFee(count) == base - step * part
  {
    FeeIs(count);
    assert Pow2(1) == 2 * Pow2(0) && Pow2(2) == 2 * Pow2(1);
  }

  /** Some fees: of the first block, of the first after a halving, and where it speeds up. */
  lemma Fees(first: int, halved: int, faster: int)
    requires first == 1 && halved == 8193 && faster == 24001
    ensures Countable(first) && Countable(halved) && Countable(faster)
    ensures NetworkFee(first) == 5_000_000_000 && NetworkFee(halved) == 2_500_000_000
    ensures NetworkFee(faster) == 668_952_512
  {
    FeeAt(first, 0, 0, 5_000_000_000, 305_175);
    FeeAt(halved, 1, 0, 2_500_000_000, 152_587);
    FeeAt(faster, 2, 7_616, 1_250_000_000, 76_293);
  }

  /** Within a period every block takes the same off, and from block 24000 on four times that. */
  lemma FeeSlope(count: int, base: nat)
    requires Countable(count + 1) && count >= 1
    requires var period := Accelerated(count - 1) / 8192;
      period == Accelerated(count) / 8192 < 60 && base == START / Pow2(period)
    ensures NetworkFee(count) - NetworkFee(count + 1) == base / 16384 * (if count <= 24000 then 1 else 4)
  {
    var h, h' := Accelerated(count - 1), Accelerated(count);
    FeeIs(count);
    FeeIs(count + 1);
    Difference(base, base / 16384, h % 8192, h' % 8192);
  }

  lemma Difference(base: int, step: nat, part: nat, part': nat)
    ensures (base - step * part) - (base - step * part') == step * (part' - part)
  {
  }

  // ------------------------------------------------------------------ expiry

  function ExpirationDepth(count: int): int {
    var height := count - 1;
    if height < 24000 then 12000 else if height < 48000 then height - 12000 else 36000
  }

  /** The last block count whose names have expired in a tree of a given count. */
  function ExpirationCount(count: int): int {
    count - ExpirationDepth(count)
  }

  predicate IsExpired(count: int, treeCount: int) {
    count == 0 || count <= ExpirationCount(treeCount)
  }

  /** As the tree grows, an expired name stays expired; and one that was registered later than another
      expires no earlier. */
  lemma ExpiredStaysExpired(count: int, treeCount: int, later: int)
    requires IsExpired(count, treeCount) && treeCount <= later
    ensures IsExpired(count, later)
    ensures forall earlier | 0 <= earlier <= count :: IsExpired(earlier, later)
  {
  }

  /** A name lives for at least 12000 and at most 36000 blocks. */
  lemma Lifetime(count: int, treeCount: int)
    requires count > 0
    ensures IsExpired(count, treeCount) ==> treeCount - count >= 12000
    ensures treeCount - count >= 36000 ==> IsExpired(count, treeCount)
  {
  }

  /** When a name has expired, in numbers: after 12000 blocks in a short tree, and after 36000 in a long one;
      and while the tree grows from 24000 to 48000 blocks, nothing more expires. */
  lemma ExpiredExactly(count: int, treeCount: int)
    ensures IsExpired(count, treeCount) <==>
      || count == 0
      || (treeCount <= 24000 && treeCount - count >= 12000)
      || (24000 < treeCount <= 48000 && count <= 12001)
      || (treeCount > 48000 && treeCount - count >= 36000)
  {
  }
}
